/** A packet fragmented hop after hop, and reassembled from pieces in any order. */
module FragmentRoundTrip {
  import opened Words
  import opened Checksum
  import opened Fragment
  import opened Reassembly

  // ---------------------------------------------------------------- pieces of a packet

  /** The canonical fragment for the payload bytes a..b of an unfragmented packet. */
  function Piece(o: Packet, a: nat, b: nat): Packet
    requires a <= b <= |o.payload| <= 65515
  {
    Packet(Rewritten(o.header, 20 + b - a, a / 8 + if b < |o.payload| then MF else 0), o.payload[a..b])
  }

  /** Ascending cut points after a, none beyond `end`, on 8-byte boundaries unless at `end`. */
  ghost predicate Cuts(a: nat, cuts: seq<nat>, end: nat)
    decreases |cuts|
  {
    if cuts == [] then a <= end
    else a < cuts[0] <= end && (cuts[0] < end ==> cuts[0] % 8 == 0) && Cuts(cuts[0], cuts[1..], end)
  }

  ghost function EndOf(a: nat, cuts: seq<nat>): nat {
    if cuts == [] then a else cuts[|cuts| - 1]
  }

  ghost function PiecesOf(o: Packet, a: nat, cuts: seq<nat>): (ps: seq<Packet>)
    requires |o.payload| <= 65515 && Cuts(a, cuts, |o.payload|)
    ensures |ps| == |cuts|
    decreases |cuts|
  {
    if cuts == [] then [] else [Piece(o, a, cuts[0])] + PiecesOf(o, cuts[0], cuts[1..])
  }

  lemma {:induction false} CutsAppend(a: nat, x: seq<nat>, y: seq<nat>, end: nat)
    ensures Cuts(a, x + y, end) <==> Cuts(a, x, end) && Cuts(EndOf(a, x), y, end)
    decreases |x|
  {
    if x == [] {
      assert x + y == y;
      if Cuts(a, y, end) {
        CutsAscend(a, y, end);
      }
    } else {
      assert (x + y)[1..] == x[1..] + y;
      CutsAppend(x[0], x[1..], y, end);
    }
  }

  lemma {:induction false} CutsAscend(a: nat, y: seq<nat>, end: nat)
    requires Cuts(a, y, end)
    ensures a <= EndOf(a, y) <= end
    ensures a % 8 == 0 && EndOf(a, y) < end ==> EndOf(a, y) % 8 == 0
    decreases |y|
  {
    if y != [] {
      CutsAscend(y[0], y[1..], end);
    }
  }

  lemma {:induction false} PiecesAppend(o: Packet, a: nat, x: seq<nat>, y: seq<nat>)
    requires |o.payload| <= 65515 && Cuts(a, x + y, |o.payload|)
    ensures Cuts(a, x, |o.payload|) && Cuts(EndOf(a, x), y, |o.payload|)
    ensures PiecesOf(o, a, x + y) == PiecesOf(o, a, x) + PiecesOf(o, EndOf(a, x), y)
    decreases |x|
  {
    hide Piece;
    CutsAppend(a, x, y, |o.payload|);
    if x == [] {
      assert x + y == y;
    } else {
      assert (x + y)[1..] == x[1..] + y;
      PiecesAppend(o, x[0], x[1..], y);
    }
  }

  // ---------------------------------------------------------------- fragmenting a piece

  /** Headers that differ at most in the words that fragmentation rewrites. */
  ghost predicate SameBase(h: Header, g: Header) {
    h == g.(totalLen := h.totalLen, flagsFrag := h.flagsFrag, checksum := h.checksum)
  }

  lemma SameBaseRewritten(h: Header, g: Header, totalLen: u16, flagsFrag: u16)
    requires SameBase(h, g)
    ensures Rewritten(h, totalLen, flagsFrag) == Rewritten(g, totalLen, flagsFrag)
    ensures SameBase(Rewritten(g, totalLen, flagsFrag), g)
  {
    hide Wire;
  }

  /** p is a fragment for the payload bytes a..b of o, whatever its length, flags and checksum words say
      beyond the offset and the MF bit. */
  ghost predicate IsPiece(p: Packet, o: Packet, a: nat, b: nat) {
    && a <= b <= |o.payload| <= 65515
    && a % 8 == 0
    && p.payload == o.payload[a..b]
    && OffsetOf(p) == a / 8
    && (HasMF(p.header.flagsFrag) <==> b < |o.payload|)
    && SameBase(p.header, o.header)
  }

  lemma PieceIsPiece(o: Packet, a: nat, b: nat)
    requires a <= b <= |o.payload| <= 65515 && a % 8 == 0
    ensures IsPiece(Piece(o, a, b), o, a, b)
    ensures Trimmable(Piece(o, a, b))
  {
    hide HeaderChecksum;
    assert a / 8 < 8192;
  }

  /** The length field is right, so the fragmenter reads back exactly this packet. */
  ghost predicate Trimmable(p: Packet) {
    p.header.totalLen == 20 + |p.payload|
  }

  lemma SliceOfSlice(s: seq<byte>, a: nat, b: nat, x: nat, y: nat)
    requires a <= x <= y <= b <= |s|
    ensures s[a..b][x - a..y - a] == s[x..y]
  {
    var t := s[a..b];
    forall i | 0 <= i < y - x ensures t[x - a..y - a][i] == s[x..y][i] {
      assert t[x - a + i] == s[x + i];
    }
  }

  lemma UnitsAdd(a: nat, b: nat)
    requires a % 8 == 0 && b % 8 == 0
    ensures (a + b) % 8 == 0
  {
  }

  lemma UnitsDiff(a: nat, x: nat)
    requires a % 8 == 0 && x % 8 == 0 && a <= x
    ensures a / 8 + (x - a) / 8 == x / 8
  {
  }

  lemma FlagsWord(offset: nat, more: bool)
    requires offset < OFFSETS
    ensures (if more then OrMF(Low16(offset)) else Low16(offset)) == offset + if more then MF else 0
  {
  }

  lemma FragmentOfPiece(p: Packet, o: Packet, a: nat, x: nat, y: nat)
    requires a <= x <= y <= a + |p.payload| && IsPiece(p, o, a, a + |p.payload|)
    requires x % 8 == 0
    ensures FragmentAt(p, x - a, y - a) == Piece(o, x, y)
  {
    hide Rewritten, OrMF;
    SliceOfSlice(o.payload, a, a + |p.payload|, x, y);
    UnitsDiff(a, x);
    FlagsWord(x / 8, y < |o.payload|);
    SameBaseRewritten(p.header, o.header, 20 + y - x, x / 8 + if y < |o.payload| then MF else 0);
  }

  ghost function SplitCuts(x: nat, b: nat, max: nat): (cuts: seq<nat>)
    requires x < b && max > 0
    ensures cuts != [] && EndOf(x, cuts) == b
    decreases b - x
  {
    if b - x <= max then [b] else [x + max] + SplitCuts(x + max, b, max)
  }

  lemma {:induction false} SplitCutsAreCuts(x: nat, b: nat, max: nat, end: nat)
    requires x < b <= end && max > 0 && x % 8 == 0 && max % 8 == 0 && (b < end ==> b % 8 == 0)
    ensures Cuts(x, SplitCuts(x, b, max), end)
    decreases b - x
  {
    if b - x > max {
      SplitCutsAreCuts(x + max, b, max, end);
    }
  }

  lemma PiecesCons(o: Packet, x: nat, c: nat, rest: seq<nat>)
    requires |o.payload| <= 65515 && Cuts(x, [c] + rest, |o.payload|)
    ensures x <= c <= |o.payload| && Cuts(c, rest, |o.payload|)
    ensures PiecesOf(o, x, [c] + rest) == [Piece(o, x, c)] + PiecesOf(o, c, rest)
  {
    hide Piece;
    assert ([c] + rest)[1..] == rest;
  }

  lemma SplitCons(p: Packet, from: nat, max: nat)
    requires from < |p.payload| <= 65515 && max > 0
    ensures
      if |p.payload| - from <= max then
        Split(p, from, max) == [FragmentAt(p, from, |p.payload|)]
      else
        Split(p, from, max) == [FragmentAt(p, from, from + max)] + Split(p, from + max, max)
  {
  }

  /** Splitting a piece makes smaller pieces of the same original packet. */
  lemma {:induction false} SplitOfPiece(p: Packet, o: Packet, a: nat, b: nat, x: nat, max: nat)
    requires IsPiece(p, o, a, b) && a <= x < b && x % 8 == 0
    requires max > 0 && max % 8 == 0 && (b < |o.payload| ==> b % 8 == 0)
    ensures Cuts(x, SplitCuts(x, b, max), |o.payload|)
    ensures Split(p, x - a, max) == PiecesOf(o, x, SplitCuts(x, b, max))
    decreases b - x
  {
    hide FragmentAt, Piece;
    SplitCutsAreCuts(x, b, max, |o.payload|);
    SplitCons(p, x - a, max);
    if b - x <= max {
      PiecesCons(o, x, b, []);
      FragmentOfPiece(p, o, a, x, b);
    } else {
      var c := x + max;
      UnitsAdd(x, max);
      PiecesCons(o, x, c, SplitCuts(c, b, max));
      FragmentOfPiece(p, o, a, x, c);
      SplitOfPiece(p, o, a, b, c, max);
    }
  }

  // ---------------------------------------------------------------- a chain of hops

  /** At one hop, the packet at `index` is fragmented for an MTU into at most `maxFrags` packets. */
  datatype Hop = Hop(index: nat, mtu: u16, maxFrags: nat)

  ghost predicate GoodHop(h: Hop) {
    28 <= h.mtu <= 1500
  }

  /** The packets under way after a hop, or None when the fragmenter reports an error. */
  ghost function AfterHop(ps: seq<Packet>, h: Hop): Option<seq<Packet>>
    requires GoodHop(h)
  {
    if h.index < |ps| && InDomain(Bytes(ps[h.index])) then
      match Fragmented(Bytes(ps[h.index]), h.mtu, h.maxFrags)
      case Fragments(fs) => Some(ps[..h.index] + fs + ps[h.index + 1..])
      case Refused => None
      case TooMany => None
    else None
  }

  ghost function AfterHops(ps: seq<Packet>, hops: seq<Hop>): Option<seq<Packet>>
    requires forall h :: h in hops ==> GoodHop(h)
    decreases |hops|
  {
    if hops == [] then Some(ps)
    else match AfterHop(ps, hops[0])
      case None => None
      case Some(next) => AfterHops(next, hops[1..])
  }

  /** A whole, unfragmented packet in the fragmenter's domain: 20-byte header, offset 0, MF clear. */
  ghost predicate IsWhole(o: Packet) {
    && o.header.verIhl % 16 == 5
    && |o.payload| <= 65515
    && Trimmable(o)
    && OffsetOf(o) == 0
    && !HasMF(o.header.flagsFrag)
  }

  /** What is under way: the packet itself, or all its pieces for some cut points. */
  ghost predicate Covers(ps: seq<Packet>, o: Packet)
    requires |o.payload| <= 65515
  {
    ps == [o] || exists cuts :: CoversWith(ps, o, cuts)
  }

  ghost predicate CoversWith(ps: seq<Packet>, o: Packet, cuts: seq<nat>)
    requires |o.payload| <= 65515
  {
    && cuts != [] && EndOf(0, cuts) == |o.payload|
    && Cuts(0, cuts, |o.payload|)
    && ps == PiecesOf(o, 0, cuts)
  }

  /** Fragmenting any piece (or the whole packet) yields pieces that cover the same bytes. */
  lemma FragmentsOfPiece(p: Packet, o: Packet, a: nat, b: nat, h: Hop) returns (cuts: seq<nat>)
    requires GoodHop(h) && IsPiece(p, o, a, b) && a < b && (b < |o.payload| ==> b % 8 == 0)
    requires Cut(p, h.mtu, h.maxFrags).Fragments?
    ensures Cuts(a, cuts, |o.payload|) && cuts != [] && EndOf(a, cuts) == b
    ensures
      var fs := Cut(p, h.mtu, h.maxFrags).frags;
      fs == [p] || fs == PiecesOf(o, a, cuts)
    ensures p == Piece(o, a, b) ==> Cut(p, h.mtu, h.maxFrags).frags == PiecesOf(o, a, cuts)
  {
    hide IsPiece, Split, MaxPayload, HasDF;
    IsPieceBounds(p, o, a, b);
    if 20 + |p.payload| <= h.mtu {
      cuts := [b];
      assert PiecesOf(o, b, []) == [];
    } else {
      cuts := SplitCuts(a, b, MaxPayload(h.mtu));
      SplitOfPiece(p, o, a, b, a, MaxPayload(h.mtu));
    }
  }

  /** The fragmenter reads a well-formed packet off the wire and cuts it. */
  lemma HopCuts(ps: seq<Packet>, h: Hop)
    requires GoodHop(h)
    ensures AfterHop(ps, h).Some? ==> h.index < |ps|
    ensures AfterHop(ps, h).Some? && Trimmable(ps[h.index]) && |ps[h.index].payload| <= 65515 ==>
      && Cut(ps[h.index], h.mtu, h.maxFrags).Fragments?
      && AfterHop(ps, h).value == ps[..h.index] + Cut(ps[h.index], h.mtu, h.maxFrags).frags + ps[h.index + 1..]
  {
    hide InDomain, Cut, Wire, Parse;
    if h.index < |ps| && Trimmable(ps[h.index]) {
      TrimmedBytes(ps[h.index]);
    }
  }

  lemma IsPieceBounds(p: Packet, o: Packet, a: nat, b: nat)
    requires IsPiece(p, o, a, b)
    ensures a <= b <= |o.payload| <= 65515 && |p.payload| == b - a && a % 8 == 0
  {
  }

  /** The bytes of a packet with a right length field read back as that packet. */
  lemma TrimmedBytes(p: Packet)
    requires Trimmable(p)
    ensures
      var pkt := Bytes(p);
      && 20 <= |pkt| && Parse(pkt) == p.header && 20 <= Parse(pkt).totalLen <= |pkt|
      && Trimmed(pkt) == p
      && pkt[0] == p.header.verIhl
  {
    hide Wire, Parse;
    ParseWire(p.header);
    ParsePrefix(Wire(p.header), p.payload);
    WireFirst(p.header);
  }

  lemma ParsePrefix(w: seq<byte>, rest: seq<byte>)
    requires |w| == 20
    ensures Parse(w + rest) == Parse(w)
  {
  }

  lemma WireFirst(h: Header)
    ensures Wire(h)[0] == h.verIhl
  {
  }

  /** Replacing one cut by several splits one piece of the list. */
  lemma ReplaceCut(o: Packet, x: seq<nat>, b: nat, y: seq<nat>, sub: seq<nat>)
    requires |o.payload| <= 65515 && Cuts(0, x + [b] + y, |o.payload|)
    requires Cuts(EndOf(0, x), sub, |o.payload|) && sub != [] && EndOf(EndOf(0, x), sub) == b
    ensures EndOf(0, x) < b <= |o.payload| && EndOf(0, x) % 8 == 0 && (b < |o.payload| ==> b % 8 == 0)
    ensures Cuts(0, x + sub + y, |o.payload|)
    ensures PiecesOf(o, 0, x + [b] + y)[..|x|] == PiecesOf(o, 0, x + sub + y)[..|x|]
    ensures PiecesOf(o, 0, x + [b] + y)[|x|] == Piece(o, EndOf(0, x), b)
    ensures PiecesOf(o, 0, x + sub + y) ==
            PiecesOf(o, 0, x + [b] + y)[..|x|] + PiecesOf(o, EndOf(0, x), sub)
            + PiecesOf(o, 0, x + [b] + y)[|x| + 1..]
  {
    hide Piece, Cuts, PiecesOf;
    var end := |o.payload|;
    var a := EndOf(0, x);
    CutBounds(x, b, y, end);
    CutsAppend(0, x + [b], y, end);
    CutsAppend(0, x, [b], end);
    CutsAppend(0, x, sub, end);
    CutsAppend(0, x + sub, y, end);
    PiecesAppend(o, 0, x + [b], y);
    PiecesAppend(o, 0, x, [b]);
    PiecesAppend(o, 0, x, sub);
    PiecesAppend(o, 0, x + sub, y);
    assert [b] + [] == [b];
    PiecesCons(o, a, b, []);
    NoPieces(o, b);
  }

  lemma NoPieces(o: Packet, b: nat)
    requires b <= |o.payload| <= 65515
    ensures Cuts(b, [], |o.payload|) && PiecesOf(o, b, []) == []
  {
  }

  lemma CutBounds(x: seq<nat>, b: nat, y: seq<nat>, end: nat)
    requires Cuts(0, x + [b] + y, end)
    ensures EndOf(0, x) < b <= end && EndOf(0, x) % 8 == 0 && (b < end ==> b % 8 == 0)
  {
    CutsAppend(0, x + [b], y, end);
    CutsAppend(0, x, [b], end);
    CutsAscend(0, x, end);
  }

  lemma SplitAt(cuts: seq<nat>, j: nat) returns (x: seq<nat>, b: nat, y: seq<nat>)
    requires j < |cuts|
    ensures cuts == x + [b] + y && |x| == j
  {
    x, b, y := cuts[..j], cuts[j], cuts[j + 1..];
  }

  /** Cutting one piece of many. */
  lemma HopOnPieces(ps: seq<Packet>, o: Packet, cuts: seq<nat>, h: Hop) returns (cuts': seq<nat>)
    requires IsWhole(o) && CoversWith(ps, o, cuts) && GoodHop(h) && h.index < |ps|
    requires |ps[h.index].payload| <= 65515 && Cut(ps[h.index], h.mtu, h.maxFrags).Fragments?
    ensures CoversWith(ps[..h.index] + Cut(ps[h.index], h.mtu, h.maxFrags).frags + ps[h.index + 1..], o, cuts')
  {
    hide Piece, Cut;
    var x, b, y := SplitAt(cuts, h.index);
    var a := EndOf(0, x);
    CutBounds(x, b, y, |o.payload|);
    PieceIsPiece(o, a, b);
    ReplaceCut(o, x, b, y, [b]);
    var sub := FragmentsOfPiece(Piece(o, a, b), o, a, b, h);
    ReplaceCut(o, x, b, y, sub);
    cuts' := x + sub + y;
  }

  lemma WholeIsPiece(o: Packet)
    requires IsWhole(o)
    ensures IsPiece(o, o, 0, |o.payload|)
  {
  }

  /** Cutting the packet itself. */
  lemma HopOnWhole(o: Packet, h: Hop) returns (cuts: seq<nat>)
    requires IsWhole(o) && GoodHop(h) && Cut(o, h.mtu, h.maxFrags).Fragments?
    ensures var fs := Cut(o, h.mtu, h.maxFrags).frags; fs == [o] || CoversWith(fs, o, cuts)
  {
    hide IsPiece, OffsetOf, HasMF, HasDF, MaxPayload, Split;
    WholeIsPiece(o);
    if o.payload == [] {
      cuts := [];
    } else {
      cuts := FragmentsOfPiece(o, o, 0, |o.payload|, h);
    }
  }

  lemma CoveringPackets(ps: seq<Packet>, o: Packet, i: nat)
    requires IsWhole(o) && Covers(ps, o) && i < |ps|
    ensures Trimmable(ps[i]) && |ps[i].payload| <= 65515
  {
    hide Piece;
    if ps != [o] {
      var cuts :| CoversWith(ps, o, cuts);
      PieceAt(o, 0, cuts, i);
      PieceIsPiece(o, StartOf(cuts, i), cuts[i]);
      IsPieceBounds(ps[i], o, StartOf(cuts, i), cuts[i]);
    }
  }

  lemma CutKeepsCover(ps: seq<Packet>, o: Packet, h: Hop)
    requires IsWhole(o) && Covers(ps, o) && GoodHop(h) && h.index < |ps|
    requires |ps[h.index].payload| <= 65515 && Cut(ps[h.index], h.mtu, h.maxFrags).Fragments?
    ensures Covers(ps[..h.index] + Cut(ps[h.index], h.mtu, h.maxFrags).frags + ps[h.index + 1..], o)
  {
    hide Cut, CoversWith, IsWhole;
    WholeIsSmall(o);
    if ps == [o] {
      var cuts := HopOnWhole(o, h);
      var fs := Cut(o, h.mtu, h.maxFrags).frags;
      assert ps[..0] + fs + ps[1..] == fs;
    } else {
      var cuts :| CoversWith(ps, o, cuts);
      var cuts' := HopOnPieces(ps, o, cuts, h);
    }
  }

  lemma WholeIsSmall(o: Packet)
    requires IsWhole(o)
    ensures |o.payload| <= 65515
  {
  }

  /** However often and wherever a packet is fragmented, what is under way covers it exactly. */
  lemma {:induction false} HopsKeepCover(ps: seq<Packet>, o: Packet, hops: seq<Hop>)
    requires IsWhole(o) && Covers(ps, o)
    requires forall h :: h in hops ==> GoodHop(h)
    requires AfterHops(ps, hops).Some?
    ensures Covers(AfterHops(ps, hops).value, o)
    decreases |hops|
  {
    hide AfterHop, CoversWith, Covers, OffsetOf, HasMF, Cut;
    if hops != [] {
      HopCuts(ps, hops[0]);
      CoveringPackets(ps, o, hops[0].index);
      CutKeepsCover(ps, o, hops[0]);
      HopsKeepCover(AfterHop(ps, hops[0]).value, o, hops[1..]);
    }
  }

  // ---------------------------------------------------------------- reassembly of the pieces

  /** Strictly ascending offsets: there is only one way to sort such fragments. */
  ghost predicate Ascending(s: seq<Packet>) {
    forall i, j :: 0 <= i < j < |s| ==> OffsetOf(s[i]) < OffsetOf(s[j])
  }

  lemma HeadsAgree(s: seq<Packet>, t: seq<Packet>)
    requires Ascending(s) && SortedPermutation(t, s) && s != [] && t != []
    ensures s[0] == t[0]
  {
    hide OffsetOf;
    assert s[0] in multiset(t) && t[0] in multiset(s);
    var i :| 0 <= i < |t| && t[i] == s[0];
    var j :| 0 <= j < |s| && s[j] == t[0];
    assert OffsetOf(t[0]) <= OffsetOf(s[0]);
  }

  lemma TailMultiset(s: seq<Packet>)
    requires s != []
    ensures multiset(s[1..]) == multiset(s) - multiset{s[0]}
  {
    assert s == [s[0]] + s[1..];
  }

  lemma {:induction false} SortIsUnique(s: seq<Packet>, t: seq<Packet>)
    requires Ascending(s) && SortedPermutation(t, s)
    ensures t == s
  {
    hide OffsetOf;
    SameMultiset(s, t);
    if s != [] {
      HeadsAgree(s, t);
      TailMultiset(s);
      TailMultiset(t);
      SortIsUnique(s[1..], t[1..]);
      assert s == [s[0]] + s[1..] && t == [t[0]] + t[1..];
    }
  }

  lemma SameMultiset(s: seq<Packet>, t: seq<Packet>)
    requires multiset(s) == multiset(t)
    ensures |s| == |t|
  {
    assert |multiset(s)| == |s| && |multiset(t)| == |t|;
  }

  lemma PieceOffset(o: Packet, a: nat, b: nat)
    requires a <= b <= |o.payload| <= 65515
    ensures OffsetOf(Piece(o, a, b)) == a / 8
    ensures HasMF(Piece(o, a, b).header.flagsFrag) <==> b < |o.payload|
  {
    hide HeaderChecksum;
    assert a / 8 < 8192;
  }

  lemma UnitsAscend(a: nat, b: nat)
    requires a % 8 == 0 && b % 8 == 0 && a < b
    ensures a / 8 < b / 8
  {
  }

  lemma {:induction false} PiecesAscend(o: Packet, a: nat, cuts: seq<nat>)
    requires |o.payload| <= 65515 && a % 8 == 0 && Cuts(a, cuts, |o.payload|)
    ensures Ascending(PiecesOf(o, a, cuts))
    ensures forall p :: p in PiecesOf(o, a, cuts) ==> a / 8 <= OffsetOf(p)
    decreases |cuts|
  {
    hide Piece, OffsetOf;
    if cuts != [] {
      PieceOffset(o, a, cuts[0]);
      if |cuts| > 1 {
        assert cuts[0] < cuts[1..][0] <= |o.payload|;
        UnitsAscend(a, cuts[0]);
        PiecesAscend(o, cuts[0], cuts[1..]);
      } else {
        NoPieces(o, cuts[0]);
      }
    }
  }

  lemma UnitsOfPiece(a: nat, b: nat)
    requires a % 8 == 0 && a <= b < 65536
    ensures b % 8 == 0 ==> Low16(a / 8 + (b - a) / 8) == b / 8
  {
  }

  /** The pieces of a packet pass the walk and join to its payload. */
  lemma {:induction false} PiecesJoin(o: Packet, a: nat, cuts: seq<nat>)
    requires |o.payload| <= 65515 && a % 8 == 0
    requires Cuts(a, cuts, |o.payload|) && EndOf(a, cuts) == |o.payload|
    ensures Chains(PiecesOf(o, a, cuts), a / 8)
    ensures Joined(PiecesOf(o, a, cuts)) == o.payload[a..]
    decreases |cuts|
  {
    hide OffsetOf, HasMF, Rewritten;
    if cuts != [] {
      var b, rest := cuts[0], cuts[1..];
      PieceOffset(o, a, b);
      PiecesCons(o, a, b, rest);
      assert [b] + rest == cuts;
      var ps := PiecesOf(o, a, cuts);
      assert ps[1..] == PiecesOf(o, b, rest);
      assert ps[0].payload == o.payload[a..b];
      if rest != [] {
        assert b < rest[0] <= |o.payload|;
        UnitsOfPiece(a, b);
        PiecesJoin(o, b, rest);
        assert o.payload[a..] == o.payload[a..b] + o.payload[b..];
      } else {
        NoPieces(o, b);
        assert o.payload[a..] == o.payload[a..b] + [];
      }
    }
  }

  /** What reassembly makes of a whole packet: its flags word cleared and its checksum computed. */
  ghost function Canonical(o: Packet): Packet
    requires |o.payload| <= 65515
  {
    o.(header := Rewritten(o.header, 20 + |o.payload|, 0))
  }

  lemma ReassembledPieces(o: Packet, cuts: seq<nat>, sorted: seq<Packet>)
    requires IsWhole(o) && Cuts(0, cuts, |o.payload|) && cuts != [] && EndOf(0, cuts) == |o.payload|
    requires SortedPermutation(sorted, PiecesOf(o, 0, cuts))
    ensures sorted != [] && Chains(sorted, 0) && Joined(sorted) == o.payload
    ensures Rebuilt(sorted) == Canonical(o)
  {
    hide OffsetOf, HasMF, HeaderChecksum, Chains, Joined;
    PiecesAscend(o, 0, cuts);
    SortIsUnique(PiecesOf(o, 0, cuts), sorted);
    PiecesJoin(o, 0, cuts);
    assert sorted[0] == Piece(o, 0, cuts[0]);
    SameBaseRewritten(sorted[0].header, o.header, 20 + |o.payload|, 0);
  }

  lemma ReassembledWhole(o: Packet, sorted: seq<Packet>)
    requires IsWhole(o) && SortedPermutation(sorted, [o])
    ensures sorted != [] && Chains(sorted, 0) && Joined(sorted) == o.payload
    ensures Rebuilt(sorted) == Canonical(o)
  {
    hide HeaderChecksum;
    SameMultiset(sorted, [o]);
    assert sorted[0] in multiset(sorted);
    assert sorted == [o];
    assert Joined([o]) == o.payload + [];
  }

  /** Byte for byte the original comes back exactly when its flags word was zero and its checksum
      was the one the code computes. */
  lemma CanonicalIsIdentity(o: Packet)
    requires IsWhole(o)
    ensures Bytes(Canonical(o)) == Bytes(o) <==>
            o.header.flagsFrag == 0 && o.header.checksum == HeaderChecksum(o.header)
  {
    hide HeaderChecksum, Wire, HasMF, OffsetOf;
    var c := Canonical(o);
    if Bytes(c) == Bytes(o) {
      assert Wire(c.header) == Bytes(c)[..20] == Bytes(o)[..20] == Wire(o.header);
      ParseWire(c.header);
      ParseWire(o.header);
    }
  }

  /** Fragmented through any chain of MTUs and reassembled from pieces that arrive in any order, a
      packet comes back canonical: with its flags word cleared and its checksum recomputed. */
  lemma RoundTrip(o: Packet, hops: seq<Hop>, arrived: seq<Packet>, sorted: seq<Packet>, outSize: nat)
    requires IsWhole(o) && outSize >= 20 + |o.payload|
    requires (forall h :: h in hops ==> GoodHop(h)) && AfterHops([o], hops).Some?
    requires multiset(arrived) == multiset(AfterHops([o], hops).value)
    requires SortedPermutation(sorted, arrived)
    ensures Accepts(sorted, outSize) && Rebuilt(sorted) == Canonical(o)
    ensures Bytes(Rebuilt(sorted)) == Bytes(o) <==>
            o.header.flagsFrag == 0 && o.header.checksum == HeaderChecksum(o.header)
  {
    hide OffsetOf, HasMF, AfterHops, Rebuilt, Canonical, Chains, Joined, CoversWith, Bytes, HeaderChecksum;
    HopsKeepCover([o], o, hops);
    CanonicalIsIdentity(o);
    var ps := AfterHops([o], hops).value;
    if ps == [o] {
      ReassembledWhole(o, sorted);
    } else {
      var cuts :| CoversWith(ps, o, cuts);
      CoversWithPieces(ps, o, cuts);
      ReassembledPieces(o, cuts, sorted);
    }
  }

  lemma CoversWithPieces(ps: seq<Packet>, o: Packet, cuts: seq<nat>)
    requires |o.payload| <= 65515 && CoversWith(ps, o, cuts)
    ensures cuts != [] && EndOf(0, cuts) == |o.payload|
    ensures Cuts(0, cuts, |o.payload|) && ps == PiecesOf(o, 0, cuts)
  {
  }

  // ---------------------------------------------------------------- which losses are noticed

  ghost function StartOf(cuts: seq<nat>, j: nat): nat
    requires j <= |cuts|
  {
    if j == 0 then 0 else cuts[j - 1]
  }

  lemma {:induction false} PieceAt(o: Packet, a: nat, cuts: seq<nat>, j: nat)
    requires |o.payload| <= 65515 && Cuts(a, cuts, |o.payload|) && j < |cuts| && a % 8 == 0
    ensures
      var start := if j == 0 then a else cuts[j - 1];
      && start < cuts[j] <= |o.payload| && start % 8 == 0
      && PiecesOf(o, a, cuts)[j] == Piece(o, start, cuts[j])
      && (j + 1 < |cuts| ==> cuts[j] < |o.payload| && cuts[j] % 8 == 0)
    decreases j
  {
    hide Piece;
    if j == 0 {
      if |cuts| > 1 {
        assert cuts[0] < cuts[1..][0] <= |o.payload|;
      }
    } else {
      assert cuts[0] < cuts[1..][0] <= |o.payload|;
      PieceAt(o, cuts[0], cuts[1..], j - 1);
    }
  }

  /** The pieces that arrived, by position in the original order. */
  ghost function Select(ps: seq<Packet>, kept: seq<nat>): seq<Packet>
    requires forall i :: 0 <= i < |kept| ==> kept[i] < |ps|
  {
    seq(|kept|, i requires 0 <= i < |kept| => ps[kept[i]])
  }

  lemma {:induction false} SelectChains(o: Packet, cuts: seq<nat>, kept: seq<nat>, j: nat)
    requires |o.payload| <= 65515 && Cuts(0, cuts, |o.payload|)
    requires forall i, k :: 0 <= i < k < |kept| ==> kept[i] < kept[k]
    requires forall i :: 0 <= i < |kept| ==> kept[i] < |cuts|
    requires j < |cuts|
    ensures Chains(Select(PiecesOf(o, 0, cuts), kept), StartOf(cuts, j) / 8) <==>
            forall i :: 0 <= i < |kept| ==> kept[i] == j + i
    decreases |kept|
  {
    hide Piece, OffsetOf, HasMF, Cuts, PiecesOf;
    if kept != [] {
      var ps := PiecesOf(o, 0, cuts);
      var s := Select(ps, kept);
      var at := kept[0];
      PieceAt(o, 0, cuts, j);
      PieceAt(o, 0, cuts, at);
      PieceOffset(o, StartOf(cuts, at), cuts[at]);
      PiecesAscend(o, 0, cuts);
      PieceOffset(o, StartOf(cuts, j), cuts[j]);
      assert OffsetOf(s[0]) == StartOf(cuts, j) / 8 <==> at == j;
      if at == j && |kept| > 1 {
        assert kept[1] > j;
        UnitsOfPiece(StartOf(cuts, j), cuts[j]);
        PiecePayload(o, StartOf(cuts, j), cuts[j]);
        SelectChains(o, cuts, kept[1..], j + 1);
        assert s[1..] == Select(ps, kept[1..]);
        assert forall i :: 1 <= i < |kept| ==> kept[i] == kept[1..][i - 1];
      }
    }
  }

  lemma PiecePayload(o: Packet, a: nat, b: nat)
    requires a <= b <= |o.payload| <= 65515
    ensures |Piece(o, a, b).payload| == b - a
  {
    hide Rewritten;
  }

  /** Of a packet's pieces, any that arrive are put together exactly when none is missing before
      the last one present: a lost tail goes unnoticed, any other loss is refused. */
  lemma OnlyALostTailIsMissed(o: Packet, cuts: seq<nat>, kept: seq<nat>, sorted: seq<Packet>)
    requires IsWhole(o) && cuts != [] && Cuts(0, cuts, |o.payload|)
    requires forall i, k :: 0 <= i < k < |kept| ==> kept[i] < kept[k]
    requires kept != [] && forall i :: 0 <= i < |kept| ==> kept[i] < |cuts|
    requires SortedPermutation(sorted, Select(PiecesOf(o, 0, cuts), kept))
    ensures Chains(sorted, 0) <==> forall i :: 0 <= i < |kept| ==> kept[i] == i
  {
    hide Piece, OffsetOf, HasMF, Cuts, PiecesOf;
    PiecesAscend(o, 0, cuts);
    SortIsUnique(Select(PiecesOf(o, 0, cuts), kept), sorted);
    SelectChains(o, cuts, kept, 0);
  }
}
