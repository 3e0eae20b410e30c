/** IP fragmentation and reassembly on wire-format packets with a 20-byte header. */
module Fragment {
  import opened Words
  import opened Checksum

  const MF := 0x2000
  const DF := 0x4000
  const OFFSETS := 0x2000

  // ---------------------------------------------------------------- headers

  /** The packed 20-byte header; 16-bit fields hold their host-order values, addresses their two words. */
  datatype Header = Header(verIhl: byte, tos: byte, totalLen: u16, id: u16, flagsFrag: u16,
                           ttl: byte, protocol: byte, checksum: u16, src: (u16, u16), dst: (u16, u16))

  /** A packet on the wire, and equally the used part of a fragment record. */
  datatype Packet = Packet(header: Header, payload: seq<byte>)

  /** The upper byte of a word, w / 256. */
  function High(w: u16): (b: byte)
    ensures b <= w / 256
  {
    if w < 256 then 0 else 1 + High(w - 256)
  }

  /** The lower byte of a word, w % 256. */
  function Low(w: u16): byte {
    if w < 256 then w else Low(w - 256)
  }

  lemma {:induction false} BytesAreHalves(w: u16)
    ensures High(w) == w / 256 && Low(w) == w % 256
  {
    if w >= 256 {
      BytesAreHalves(w - 256);
    }
  }

  /** The header in network byte order. */
  function Wire(h: Header): (w: seq<byte>)
    ensures |w| == 20
  {
    [h.verIhl, h.tos, High(h.totalLen), Low(h.totalLen), High(h.id), Low(h.id),
     High(h.flagsFrag), Low(h.flagsFrag), h.ttl, h.protocol, High(h.checksum), Low(h.checksum),
     High(h.src.0), Low(h.src.0), High(h.src.1), Low(h.src.1),
     High(h.dst.0), Low(h.dst.0), High(h.dst.1), Low(h.dst.1)]
  }

  /** Reading a packed header out of a buffer. */
  function Parse(w: seq<byte>): Header
    requires |w| >= 20
  {
    Header(w[0], w[1], Word(w[2], w[3]), Word(w[4], w[5]), Word(w[6], w[7]), w[8], w[9], Word(w[10], w[11]),
           (Word(w[12], w[13]), Word(w[14], w[15])), (Word(w[16], w[17]), Word(w[18], w[19])))
  }

  lemma WordOfBytes(w: u16)
    ensures Word(High(w), Low(w)) == w
  {
    BytesAreHalves(w);
  }

  lemma BytesOfWord(hi: byte, lo: byte)
    ensures High(Word(hi, lo)) == hi && Low(Word(hi, lo)) == lo
  {
    BytesAreHalves(Word(hi, lo));
  }

  lemma ParseWire(h: Header)
    ensures Parse(Wire(h)) == h
  {
    hide Word, High, Low;
    WordOfBytes(h.totalLen);
    WordOfBytes(h.id);
    WordOfBytes(h.flagsFrag);
    WordOfBytes(h.checksum);
    WordOfBytes(h.src.0);
    WordOfBytes(h.src.1);
    WordOfBytes(h.dst.0);
    WordOfBytes(h.dst.1);
  }

  lemma WireParse(w: seq<byte>)
    requires |w| == 20
    ensures Wire(Parse(w)) == w
  {
    hide Word, High, Low;
    BytesOfWord(w[2], w[3]);
    BytesOfWord(w[4], w[5]);
    BytesOfWord(w[6], w[7]);
    BytesOfWord(w[10], w[11]);
    BytesOfWord(w[12], w[13]);
    BytesOfWord(w[14], w[15]);
    BytesOfWord(w[16], w[17]);
    BytesOfWord(w[18], w[19]);
  }

  /** Where the fields that fragmentation touches lie on the wire. */
  lemma WireLayout(h: Header)
    ensures var w := Wire(h);
            && w[0] == h.verIhl
            && (w[2] as int) * 256 + w[3] as int == h.totalLen
            && (w[6] as int) * 256 + w[7] as int == h.flagsFrag
            && (w[10] as int) * 256 + w[11] as int == h.checksum
  {
    hide High, Low;
    WordOfBytes(h.totalLen);
    WordOfBytes(h.flagsFrag);
    WordOfBytes(h.checksum);
  }

  function Bytes(p: Packet): seq<byte> {
    Wire(p.header) + p.payload
  }

  /** The flags word without its bits from `bit` up, where bit is the highest of them. */
  function Below(w: nat, bit: nat): nat { if w >= bit then w - bit else w }

  function FragOffset(flagsFrag: u16): nat { Below(Below(Below(flagsFrag, 0x8000), DF), MF) }

  predicate HasMF(flagsFrag: u16) { Below(Below(flagsFrag, 0x8000), DF) >= MF }

  predicate HasDF(flagsFrag: u16) { Below(flagsFrag, 0x8000) >= DF }

  /** The accessors mask single bits, and the 13 bits below MF. */
  lemma FlagBits(flagsFrag: u16)
    ensures FragOffset(flagsFrag) == flagsFrag % 0x2000
    ensures HasMF(flagsFrag) <==> flagsFrag / 0x2000 % 2 == 1
    ensures HasDF(flagsFrag) <==> flagsFrag / 0x4000 % 2 == 1
  {
  }

  /** Bitwise or with the MF bit. */
  function OrMF(w: u16): (r: u16) {
    if HasMF(w) then w else w + MF
  }

  function HeaderChecksum(h: Header): u16 {
    RfcChecksum(Wire(h.(checksum := 0)))
  }

  /** A header with its length and flags words replaced and its checksum recomputed. */
  function Rewritten(h: Header, totalLen: u16, flagsFrag: u16): Header {
    var h' := h.(totalLen := totalLen, flagsFrag := flagsFrag);
    h'.(checksum := HeaderChecksum(h'))
  }

  /** Every rewritten header passes the receiver's check: it sums to a checksum of 0. */
  lemma RewrittenVerifies(h: Header, totalLen: u16, flagsFrag: u16)
    ensures RfcChecksum(Wire(Rewritten(h, totalLen, flagsFrag))) == 0
  {
    hide High, Low, RfcChecksum;
    var r := Rewritten(h, totalLen, flagsFrag);
    var z := Wire(r.(checksum := 0));
    BytesAreHalves(0);
    StoredChecksumVerifies(z, 10);
    BytesAreHalves(r.checksum);
    assert Wire(r) == Patched(z, 10, [High(r.checksum), Low(r.checksum)]);
  }

  method IpChecksum(data: seq<byte>) returns (check: u16)
    requires Words16(data) <= MAX_WORDS
    ensures check == RfcChecksum(data)
  {
    var sum: nat := 0;
    var i := 0;
    while i + 1 < |data|
      invariant 0 <= i <= |data|
      invariant sum + WordSum(data[i..]) == WordSum(data)
    {
      assert data[i..][2..] == data[i + 2..];
      sum := sum + Word(data[i], data[i + 1]);
      i := i + 2;
    }
    if i < |data| {
      sum := sum + Word(data[|data| - 1], 0);
    }
    WordSumBound(data);
    check := Fold(sum);
  }

  // ---------------------------------------------------------------- fragmentation

  /** The packets the fragmenter is defined on: 20-byte headers and a length that covers the header. */
  predicate InDomain(pkt: seq<byte>) {
    |pkt| >= 20 ==> pkt[0] % 16 <= 5 && Parse(pkt).totalLen >= 20
  }

  /** The part of a buffer that the length field covers. */
  function Trimmed(pkt: seq<byte>): Packet
    requires 20 <= |pkt| && 20 <= Parse(pkt).totalLen <= |pkt|
  {
    Packet(Parse(pkt), pkt[20..Parse(pkt).totalLen])
  }

  /** The largest payload, in whole 8-byte units, that fits the MTU. */
  function MaxPayload(mtu: u16): (m: nat)
    requires mtu >= 20
    ensures m % 8 == 0 && m <= mtu - 20 < m + 8
  {
    (mtu - 20) / 8 * 8
  }

  /** The fragment for the payload bytes from..upto of a packet. */
  function FragmentAt(p: Packet, from: nat, upto: nat): Packet
    requires from <= upto <= |p.payload| <= 65515
  {
    var ff := p.header.flagsFrag;
    var offset := Low16(FragOffset(ff) + from / 8);
    var more := upto < |p.payload| || HasMF(ff);
    Packet(Rewritten(p.header, 20 + upto - from, if more then OrMF(offset) else offset), p.payload[from..upto])
  }

  function Split(p: Packet, from: nat, max: nat): seq<Packet>
    requires from < |p.payload| <= 65515 && max > 0
    decreases |p.payload| - from
  {
    if |p.payload| - from <= max then [FragmentAt(p, from, |p.payload|)]
    else [FragmentAt(p, from, from + max)] + Split(p, from + max, max)
  }

  datatype Result = Fragments(frags: seq<Packet>) | Refused | TooMany

  /** What becomes of a packet whose header has been read. */
  function Cut(p: Packet, mtu: u16, maxFrags: nat): Result
    requires |p.payload| <= 65515 && mtu >= 20
  {
    if 20 + |p.payload| <= mtu then Fragments([p])
    else if HasDF(p.header.flagsFrag) || MaxPayload(mtu) == 0 then Refused
    else if |Split(p, 0, MaxPayload(mtu))| > maxFrags then TooMany
    else Fragments(Split(p, 0, MaxPayload(mtu)))
  }

  function Fragmented(pkt: seq<byte>, mtu: u16, maxFrags: nat): Result
    requires InDomain(pkt) && mtu >= 20
  {
    if |pkt| < 20 || maxFrags == 0 || pkt[0] % 16 < 5 || Parse(pkt).totalLen > |pkt| then Refused
    else Cut(Trimmed(pkt), mtu, maxFrags)
  }

  // ---------------------------------------------------------------- which outcome, from the raw bytes

  function TotalLen(pkt: seq<byte>): nat
    requires |pkt| >= 20
  {
    (pkt[2] as int) * 256 + pkt[3] as int
  }

  /** No header, no room at all, a length beyond the buffer, or a packet that must be cut and cannot be:
      its DF bit is set, or the MTU leaves no room for eight bytes. */
  predicate MustRefuse(pkt: seq<byte>, mtu: u16, room: nat) {
    || |pkt| < 20
    || room == 0
    || pkt[0] % 16 < 5
    || TotalLen(pkt) > |pkt|
    || (TotalLen(pkt) > mtu && (pkt[6] / 64 % 2 == 1 || mtu < 28))
  }

  /** How many fragments a packet needs that does not fit the MTU: the payload taken in pieces of the largest
      multiple of eight that fits; by `PiecesIsCeiling` the rounded-up quotient of the two. */
  function Needed(pkt: seq<byte>, mtu: u16): nat
    requires |pkt| >= 20 && TotalLen(pkt) >= 20 && mtu >= 28
  {
    Pieces(TotalLen(pkt) - 20, MaxPayload(mtu))
  }

  lemma DfIsBit6(hi: byte, lo: byte)
    ensures HasDF(Word(hi, lo)) <==> hi / 64 % 2 == 1
  {
  }

  lemma SmallMtu(mtu: u16)
    requires mtu >= 20
    ensures MaxPayload(mtu) == 0 <==> mtu < 28
    ensures MaxPayload(mtu) == (mtu - 20) / 8 * 8
  {
  }

  lemma TrimmedIsPrefix(pkt: seq<byte>)
    requires |pkt| >= 20 && 20 <= TotalLen(pkt) <= |pkt|
    ensures Parse(pkt).totalLen == TotalLen(pkt) && Bytes(Trimmed(pkt)) == pkt[..TotalLen(pkt)]
  {
    hide Wire;
    WireParse(pkt[..20]);
    assert Parse(pkt[..20]) == Parse(pkt);
    assert pkt[..TotalLen(pkt)] == pkt[..20] + pkt[20..TotalLen(pkt)];
  }

  lemma FieldsOf(pkt: seq<byte>)
    requires |pkt| >= 20
    ensures Parse(pkt).totalLen == TotalLen(pkt) && Parse(pkt).flagsFrag == Word(pkt[6], pkt[7])
  {
  }

  /** When the fragmenter refuses, when it reports too little room, and what it delivers otherwise: the
      packet itself if that fits, and as many fragments as are needed if not. */
  lemma FragmentOutcome(pkt: seq<byte>, mtu: u16, room: nat)
    requires InDomain(pkt) && mtu >= 20
    ensures Fragmented(pkt, mtu, room) == Refused <==> MustRefuse(pkt, mtu, room)
    ensures Fragmented(pkt, mtu, room) == TooMany <==>
              !MustRefuse(pkt, mtu, room) && TotalLen(pkt) > mtu && Needed(pkt, mtu) > room
    ensures !MustRefuse(pkt, mtu, room) && TotalLen(pkt) <= mtu ==>
              var r := Fragmented(pkt, mtu, room);
              r.Fragments? && |r.frags| == 1 && Bytes(r.frags[0]) == pkt[..TotalLen(pkt)]
    ensures !MustRefuse(pkt, mtu, room) && TotalLen(pkt) > mtu && Needed(pkt, mtu) <= room ==>
              var r := Fragmented(pkt, mtu, room);
              r.Fragments? && |r.frags| == Needed(pkt, mtu)
  {
    hide Parse, Bytes, HasDF, MaxPayload, Split, Pieces, CeilDiv;
    if |pkt| >= 20 {
      FieldsOf(pkt);
      DfIsBit6(pkt[6], pkt[7]);
      SmallMtu(mtu);
      if 20 <= TotalLen(pkt) <= |pkt| {
        TrimmedIsPrefix(pkt);
        if TotalLen(pkt) > mtu >= 28 {
          NeededIsSplit(pkt, mtu);
        }
      }
    }
  }

  lemma NeededIsSplit(pkt: seq<byte>, mtu: u16)
    requires |pkt| >= 20 && 20 < TotalLen(pkt) <= |pkt| && mtu >= 28
    requires Parse(pkt).totalLen == TotalLen(pkt)
    ensures |Split(Trimmed(pkt), 0, MaxPayload(mtu))| == Needed(pkt, mtu)
  {
    hide Parse, Split;
    SmallMtu(mtu);
    SplitCount(Trimmed(pkt), 0, MaxPayload(mtu));
  }

  // ---------------------------------------------------------------- counting the fragments

  /** Division rounded up. */
  function CeilDiv(len: nat, d: nat): nat
    requires d > 0
  {
    (len + d - 1) / d
  }

  /** The length of a split, which takes `max` bytes at a time: len / max, rounded up. */
  function Pieces(len: nat, max: nat): nat
    requires max > 0
  {
    if len <= max then 1 else 1 + Pieces(len - max, max)
  }

  lemma {:induction false} PiecesIsCeiling(len: nat, max: nat)
    requires len > 0 && max > 0
    ensures Pieces(len, max) == CeilDiv(len, max)
  {
    if len <= max {
      DivUnique(len + max - 1, max, 1);
    } else {
      PiecesIsCeiling(len - max, max);
      var q := (len - 1) / max;
      assert q * max <= len - 1 < q * max + max;
      DivUnique(len + max - 1, max, q + 1);
    }
  }

  lemma DivUnique(a: nat, d: nat, q: nat)
    requires d > 0 && q * d <= a < q * d + d
    ensures a / d == q
  {
    var r := a / d;
    assert a == d * r + a % d;
    assert r + 1 <= q ==> (r + 1) * d <= q * d;
    assert q + 1 <= r ==> (q + 1) * d <= r * d;
  }

  lemma {:induction false} SplitCount(p: Packet, from: nat, max: nat)
    requires from < |p.payload| <= 65515 && max > 0
    ensures |Split(p, from, max)| == Pieces(|p.payload| - from, max)
    decreases |p.payload| - from
  {
    hide FragmentAt;
    if |p.payload| - from > max {
      SplitCount(p, from + max, max);
    }
  }

  method MakeFragment(header: Header, payload: seq<byte>, offset: nat, chunk: nat, last: bool) returns (f: Packet)
    requires offset + chunk <= |payload| <= 65515
    requires last <==> offset + chunk == |payload|
    ensures f == FragmentAt(Packet(header, payload), offset, offset + chunk)
  {
    var h := header.(totalLen := 20 + chunk);
    Low16IsModular(FragOffset(header.flagsFrag) + offset / 8);
    var flagsFrag := (FragOffset(header.flagsFrag) + offset / 8) % TWO_16;
    if !last {
      flagsFrag := OrMF(flagsFrag);
    } else {
      if HasMF(header.flagsFrag) {
        flagsFrag := OrMF(flagsFrag);
      }
    }
    h := h.(flagsFrag := flagsFrag);
    h := h.(checksum := 0);
    var check := IpChecksum(Wire(h));
    h := h.(checksum := check);
    f := Packet(h, payload[offset..offset + chunk]);
  }

  function Rest(p: Packet, from: nat, max: nat): seq<Packet>
    requires from <= |p.payload| <= 65515 && max > 0
  {
    if from == |p.payload| then [] else Split(p, from, max)
  }

  lemma RestStep(done: seq<Packet>, p: Packet, from: nat, max: nat)
    requires from < |p.payload| <= 65515 && max > 0
    requires done + Rest(p, from, max) == Split(p, 0, max)
    ensures
      var upto := Min(from + max, |p.payload|);
      && done + [FragmentAt(p, from, upto)] + Rest(p, upto, max) == Split(p, 0, max)
      && (|done| == |Split(p, 0, max)| - 1 <==> upto == |p.payload|)
  {
    var upto := Min(from + max, |p.payload|);
    assert Rest(p, from, max) == [FragmentAt(p, from, upto)] + Rest(p, upto, max);
    assert done + ([FragmentAt(p, from, upto)] + Rest(p, upto, max))
        == done + [FragmentAt(p, from, upto)] + Rest(p, upto, max);
  }

  lemma {:induction false} SplitSizes(p: Packet, from: nat, max: nat)
    requires from < |p.payload| <= 65515 && max > 0
    ensures forall k :: 0 <= k < |Split(p, from, max)| ==> |Split(p, from, max)[k].payload| <= max
    decreases |p.payload| - from
  {
    if |p.payload| - from > max {
      SplitSizes(p, from + max, max);
    }
  }

  /** The fragmenting loop of `FragmentPacket`. */
  method FillFragments(header: Header, payload: seq<byte>, maxPayload: nat, nfrags: nat, frags: array<Packet>)
    requires 0 < |payload| <= 65515 && 0 < maxPayload
    requires nfrags == |Split(Packet(header, payload), 0, maxPayload)| <= frags.Length
    modifies frags
    ensures frags[..nfrags] == Split(Packet(header, payload), 0, maxPayload)
  {
    hide FragmentAt;
    ghost var p := Packet(header, payload);
    ghost var done := [];
    var offset := 0;
    var i := 0;
    while i < nfrags
      invariant i == |done| <= nfrags && 0 <= offset <= |payload|
      invariant done + Rest(p, offset, maxPayload) == Split(p, 0, maxPayload)
      invariant frags[..i] == done
    {
      var chunk := |payload| - offset;
      if chunk > maxPayload {
        chunk := maxPayload;
      }
      RestStep(done, p, offset, maxPayload);
      var f := MakeFragment(header, payload, offset, chunk, i == nfrags - 1);
      done := done + [f];
      frags[i] := f;
      offset := offset + chunk;
      i := i + 1;
    }
  }

  method FragmentPacket(pkt: seq<byte>, mtu: u16, frags: array<Packet>) returns (r: int)
    requires InDomain(pkt) && 20 <= mtu <= 1500
    modifies frags
    ensures
      match Fragmented(pkt, mtu, frags.Length)
      case Refused => r == -1
      case TooMany => r == -2
      case Fragments(fs) => 1 <= r == |fs| <= frags.Length && frags[..r] == fs
    ensures r == -1 <==> MustRefuse(pkt, mtu, frags.Length)
    ensures r == -2 <==> !MustRefuse(pkt, mtu, frags.Length) && TotalLen(pkt) > mtu && Needed(pkt, mtu) > frags.Length
    ensures r >= 0 && TotalLen(pkt) <= mtu ==> r == 1 && Bytes(frags[0]) == pkt[..TotalLen(pkt)]
    ensures r >= 0 && TotalLen(pkt) > mtu ==> r == Needed(pkt, mtu)
    ensures forall i :: 0 <= i < r ==> i < frags.Length && 20 + |frags[i].payload| <= mtu
  {
    hide FragmentAt, Parse, HasDF, MaxPayload, CeilDiv, MustRefuse, Needed, TotalLen, Bytes;
    FragmentOutcome(pkt, mtu, frags.Length);
    if |pkt| < 20 || frags.Length == 0 {
      return -1;
    }
    var header := Parse(pkt);
    var ihl := pkt[0] % 16 * 4;
    if ihl < 20 {
      return -1;
    }
    var total := header.totalLen;
    if total > |pkt| {
      return -1;
    }
    var payloadLen := total - ihl;
    ghost var p := Trimmed(pkt);
    if total <= mtu {
      frags[0] := Packet(header, pkt[ihl..ihl + payloadLen]);
      return 1;
    }
    if HasDF(header.flagsFrag) {
      return -1;
    }
    var maxPayload := MaxPayload(mtu);
    if maxPayload == 0 {
      return -1;
    }
    var nfrags := CeilDiv(payloadLen, maxPayload);
    SplitCount(p, 0, maxPayload);
    PiecesIsCeiling(payloadLen, maxPayload);
    if nfrags > frags.Length {
      return -2;
    }
    var payload := pkt[ihl..ihl + payloadLen];
    FillFragments(header, payload, maxPayload, nfrags, frags);
    SplitSizes(p, 0, maxPayload);
    return nfrags;
  }

}
