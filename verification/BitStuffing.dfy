/** HDLC bit stuffing over bits packed most significant first. */
module BitStuffing {
  import opened Words
  import opened Bitwise

  // ---------------------------------------------------------------- reference, on bit strings

  /** The stuffed string when `ones` consecutive ones have just gone out. */
  function Stuffed(ones: nat, bits: seq<bool>): seq<bool>
    requires ones < 5
    decreases |bits|
  {
    if bits == [] then []
    else if !bits[0] then [false] + Stuffed(0, bits[1..])
    else if ones == 4 then [true, false] + Stuffed(0, bits[1..])
    else [true] + Stuffed(ones + 1, bits[1..])
  }

  /** The data bits when `ones` consecutive ones have just come in; None on a sixth one. */
  function Unstuffed(ones: nat, bits: seq<bool>): Option<seq<bool>>
    requires ones <= 5
    decreases |bits|
  {
    if bits == [] then Some([])
    else if ones == 5 then if bits[0] then None else Unstuffed(0, bits[1..])
    else match Unstuffed(if bits[0] then ones + 1 else 0, bits[1..])
      case None => None
      case Some(rest) => Some([bits[0]] + rest)
  }

  lemma {:induction false} UnstuffedStuffed(ones: nat, bits: seq<bool>)
    requires ones < 5
    ensures Unstuffed(ones, Stuffed(ones, bits)) == Some(bits)
    decreases |bits|
  {
    if bits != [] {
      var s := Stuffed(ones, bits);
      if bits[0] && ones == 4 {
        UnstuffedStuffed(0, bits[1..]);
        assert s[1..][1..] == Stuffed(0, bits[1..]) && !s[1..][0];
        assert Unstuffed(5, s[1..]) == Unstuffed(0, s[1..][1..]);
      } else {
        UnstuffedStuffed(if bits[0] then ones + 1 else 0, bits[1..]);
        assert s[1..] == Stuffed(if bits[0] then ones + 1 else 0, bits[1..]);
      }
      assert [bits[0]] + bits[1..] == bits;
    }
  }

  /** Six ones in a row from position i on. */
  ghost predicate SixOnesAt(s: seq<bool>, i: nat) {
    i + 6 <= |s| && forall k :: i <= k < i + 6 ==> s[k]
  }

  /** At most five ones and a zero in front of a string free of six ones leave it free of six ones. */
  lemma NoSixAcrossZero(n: nat, rest: seq<bool>, i: nat)
    requires n <= 5
    requires i > n ==> !SixOnesAt(rest, i - n - 1)
    ensures !SixOnesAt(Ones(n) + ([false] + rest), i)
  {
    var all := Ones(n) + ([false] + rest);
    if i <= n {
      assert !all[n];
    } else if i + 6 <= |all| {
      var k :| i - n - 1 <= k < i - n + 5 && !rest[k];
      assert !all[k + n + 1];
    }
  }

  lemma OnesThenOne(n: nat, rest: seq<bool>)
    ensures Ones(n) + ([true] + rest) == Ones(n + 1) + rest
  {
  }

  /** Not even behind the ones already sent is there a run of six. */
  lemma {:induction false} NoSixOnes(ones: nat, bits: seq<bool>, i: nat)
    requires ones < 5
    ensures !SixOnesAt(Ones(ones) + Stuffed(ones, bits), i)
    decreases |bits|
  {
    hide SixOnesAt, Ones;
    if bits == [] {
      NoSixOnesInFew(ones, i);
      assert Ones(ones) + [] == Ones(ones);
    } else if bits[0] && ones < 4 {
      OnesThenOne(ones, Stuffed(ones + 1, bits[1..]));
      NoSixOnes(ones + 1, bits[1..], i);
    } else {
      var n := if bits[0] then 5 else ones;
      var rest := Stuffed(0, bits[1..]);
      if i > n {
        NoSixOnes(0, bits[1..], i - n - 1);
        assert Ones(0) + rest == rest;
      }
      NoSixAcrossZero(n, rest, i);
      OnesThenOne(4, [false] + rest);
      assert [true, false] + rest == [true] + ([false] + rest);
    }
  }

  lemma NoSixOnesInFew(n: nat, i: nat)
    requires n < 5
    ensures !SixOnesAt(Ones(n), i)
  {
  }

  lemma {:induction false} StuffedLength(ones: nat, bits: seq<bool>)
    requires ones < 5
    ensures |bits| <= |Stuffed(ones, bits)| <= |bits| + (ones + |bits|) / 5
    decreases |bits|
  {
    if bits != [] {
      if !bits[0] || ones == 4 {
        StuffedLength(0, bits[1..]);
      } else {
        StuffedLength(ones + 1, bits[1..]);
      }
    }
  }

  /** For every bit string: the round trip, no six ones (so no flag), and at most n + n / 5 bits. */
  lemma RoundTrip(bits: seq<bool>)
    ensures Unstuffed(0, Stuffed(0, bits)) == Some(bits)
    ensures forall i :: !SixOnesAt(Stuffed(0, bits), i)
    ensures |bits| <= |Stuffed(0, bits)| <= |bits| + |bits| / 5
  {
    UnstuffedStuffed(0, bits);
    StuffedLength(0, bits);
    forall i ensures !SixOnesAt(Stuffed(0, bits), i) {
      NoSixOnes(0, bits, i);
      assert Ones(0) + Stuffed(0, bits) == Stuffed(0, bits);
    }
  }

  /** The string stops right behind five ones. */
  predicate EndsInFive(ones: nat, s: seq<bool>)
    requires ones <= 5
    decreases |s|
  {
    if s == [] then ones == 5
    else EndsInFive(if s[0] && ones < 5 then ones + 1 else 0, s[1..])
  }

  /** What a sender that has `ones` ones out, or owes a stuffed zero, goes on to send for d. */
  function Resent(ones: nat, d: seq<bool>): seq<bool>
    requires ones <= 5
  {
    if ones < 5 then Stuffed(ones, d) else [false] + Stuffed(0, d)
  }

  lemma ResentStep(ones: nat, bit: bool, d: seq<bool>)
    requires ones < 5
    ensures Resent(ones, [bit] + d) == [bit] + Resent(if bit then ones + 1 else 0, d)
  {
    assert ([bit] + d)[1..] == d;
    assert [true, false] + Stuffed(0, d) == [true] + ([false] + Stuffed(0, d));
  }

  /** The receiver accepts more than senders produce only in that the last stuffed zero may be missing. */
  lemma {:induction false} StuffedUnstuffed(ones: nat, s: seq<bool>)
    requires ones <= 5 && Unstuffed(ones, s).Some?
    ensures Resent(ones, Unstuffed(ones, s).value) == if EndsInFive(ones, s) then s + [false] else s
    decreases |s|
  {
    hide Stuffed;
    if s == [] {
      StuffedNothing();
    } else {
      var ones' := if s[0] && ones < 5 then ones + 1 else 0;
      StuffedUnstuffed(ones', s[1..]);
      var d := Unstuffed(ones', s[1..]).value;
      var back := if EndsInFive(ones', s[1..]) then s[1..] + [false] else s[1..];
      assert [s[0]] + back == if EndsInFive(ones, s) then s + [false] else s;
      if ones < 5 {
        ResentStep(ones, s[0], d);
      }
    }
  }

  lemma StuffedNothing()
    ensures forall ones: nat :: ones < 5 ==> Stuffed(ones, []) == []
  {
  }

  // ---------------------------------------------------------------- packed bits

  /** 1 << (7 - k). */
  function Mask(k: nat): bv8
    requires k < 8
  {
    if k == 0 then 0x80 else if k == 1 then 0x40 else if k == 2 then 0x20 else if k == 3 then 0x10
    else if k == 4 then 0x08 else if k == 5 then 0x04 else if k == 6 then 0x02 else 0x01
  }

  predicate BitOf(b: bv8, k: nat)
    requires k < 8
  {
    b & Mask(k) != 0
  }

  function WithBit(b: bv8, k: nat, value: bool): bv8
    requires k < 8
  {
    if value then b | Mask(k) else b & !Mask(k)
  }

  lemma WithBitSets(b: bv8, k: nat, value: bool, j: nat)
    requires k < 8 && j < 8
    ensures BitOf(WithBit(b, k, value), j) == if j == k then value else BitOf(b, j)
  {
  }

  /** The bits of a byte, most significant first. */
  lemma BitsMakeTheByte(b: bv8)
    ensures b == (if BitOf(b, 0) then 0x80 else 0) | (if BitOf(b, 1) then 0x40 else 0)
               | (if BitOf(b, 2) then 0x20 else 0) | (if BitOf(b, 3) then 0x10 else 0)
               | (if BitOf(b, 4) then 0x08 else 0) | (if BitOf(b, 5) then 0x04 else 0)
               | (if BitOf(b, 6) then 0x02 else 0) | (if BitOf(b, 7) then 0x01 else 0)
  {
  }

  predicate GetBit(data: seq<bv8>, n: nat)
    requires n < 8 * |data|
  {
    BitOf(data[n / 8], n % 8)
  }

  /** The first n bits of a packed buffer. */
  function Unpacked(data: seq<bv8>, n: nat): (bits: seq<bool>)
    requires n <= 8 * |data|
    ensures |bits| == n
  {
    seq(n, i requires 0 <= i < n => GetBit(data, i))
  }

  method SetBit(out: array<bv8>, n: nat, value: bool)
    requires n < 8 * out.Length
    modifies out
    ensures Unpacked(out[..], n + 1) == old(Unpacked(out[..], n)) + [value]
  {
    var byteIdx := n / 8;
    var bitIdx := n % 8;
    ghost var was := out[..];
    if value {
      out[byteIdx] := out[byteIdx] | Mask(bitIdx);
    } else {
      out[byteIdx] := out[byteIdx] & !Mask(bitIdx);
    }
    SetBitUnpacked(was, out[..], n, value);
  }

  lemma SetBitUnpacked(was: seq<bv8>, now: seq<bv8>, n: nat, value: bool)
    requires n < 8 * |was|
    requires now == was[n / 8 := WithBit(was[n / 8], n % 8, value)]
    ensures Unpacked(now, n + 1) == Unpacked(was, n) + [value]
  {
    hide BitOf, WithBit;
    forall i | 0 <= i <= n ensures GetBit(now, i) == if i == n then value else GetBit(was, i) {
      if i / 8 == n / 8 {
        WithBitSets(was[n / 8], n % 8, value, i % 8);
        assert i == 8 * (i / 8) + i % 8 && n == 8 * (n / 8) + n % 8;
      }
    }
  }

  lemma UnpackedNext(data: seq<bv8>, n: nat, i: nat)
    requires i < n <= 8 * |data|
    ensures Unpacked(data, n)[i..] == [GetBit(data, i)] + Unpacked(data, n)[i + 1..]
  {
  }

  /** Room the sender asks for before it starts: enough for a stuffed zero every five bits, plus one. */
  function RoomFor(nbits: nat): nat {
    (nbits + nbits / 5 + 1 + 7) / 8
  }

  lemma RoomInBytes(nbits: nat)
    ensures RoomFor(nbits) == (nbits + nbits / 5 + 1 + 7) / 8
  {
  }

  lemma RoomIsEnough(nbits: nat, length: nat, room: nat)
    requires length <= nbits + nbits / 5 && RoomFor(nbits) <= room
    ensures length < 8 * room
  {
  }

  method Clear(out: array<bv8>)
    modifies out
    ensures forall k :: 0 <= k < out.Length ==> out[k] == 0
  {
    for i := 0 to out.Length
      invariant forall k :: 0 <= k < i ==> out[k] == 0
    {
      out[i] := 0;
    }
  }

  method BitStuff(data: seq<bv8>, nbits: nat, out: array<bv8>) returns (r: int)
    requires nbits <= 8 * |data|
    modifies out
    ensures r == -1 <==> out.Length < (nbits + nbits / 5 + 1 + 7) / 8
    ensures r == -1 ==> out[..] == old(out[..])
    ensures r != -1 ==> 0 <= r < 8 * out.Length
    ensures r != -1 ==> Unpacked(out[..], r) == Stuffed(0, Unpacked(data, nbits))
  {
    hide RoomFor, GetBit, Unpacked;
    RoomInBytes(nbits);
    if out.Length < RoomFor(nbits) {
      return -1;
    }
    Clear(out);
    ghost var bits := Unpacked(data, nbits);
    StuffedLength(0, bits);
    RoomIsEnough(nbits, |Stuffed(0, bits)|, out.Length);
    var outIdx := 0;
    var ones := 0;
    assert Unpacked(out[..], 0) == [];
    for i := 0 to nbits
      invariant ones < 5
      invariant outIdx <= 8 * out.Length
      invariant Stuffed(0, bits) == Unpacked(out[..], outIdx) + Stuffed(ones, bits[i..])
    {
      UnpackedNext(data, nbits, i);
      outIdx, ones := StuffBit(bits[i..], out, outIdx, ones, GetBit(data, i));
    }
    assert bits[nbits..] == [];
    r := outIdx;
  }

  /** One turn of the sender's loop. */
  method StuffBit(ghost bits: seq<bool>, out: array<bv8>, at: nat, before: nat, b: bool)
      returns (outIdx: nat, ones: nat)
    requires before < 5
    requires bits != [] && bits[0] == b
    requires at + |Stuffed(before, bits)| <= 8 * out.Length
    modifies out
    ensures ones < 5 && at <= outIdx <= 8 * out.Length
    ensures Unpacked(out[..], outIdx) + Stuffed(ones, bits[1..])
         == old(Unpacked(out[..], at)) + Stuffed(before, bits)
  {
    hide Unpacked, Stuffed;
    ghost var sent := Unpacked(out[..], at);
    StuffedNext(before, bits);
    SetBit(out, at, b);
    outIdx := at + 1;
    ones := 0;
    if b {
      ones := before + 1;
      if ones == 5 {
        SetBit(out, outIdx, false);
        outIdx := outIdx + 1;
        ones := 0;
        Regroup(sent, [true], [false], Stuffed(0, bits[1..]));
      }
    }
    Regroup(sent, [b], [], Stuffed(if b && before < 4 then before + 1 else 0, bits[1..]));
  }

  lemma StuffedNext(ones: nat, bits: seq<bool>)
    requires ones < 5 && bits != []
    ensures Stuffed(ones, bits)
         == [bits[0]] + (if bits[0] && ones == 4 then [false] else [])
            + Stuffed(if bits[0] && ones < 4 then ones + 1 else 0, bits[1..])
  {
  }

  lemma Regroup(sent: seq<bool>, a: seq<bool>, b: seq<bool>, rest: seq<bool>)
    ensures sent + (a + b + rest) == sent + a + b + rest
    ensures sent + a + [] == sent + a
  {
  }

  method BitUnstuff(data: seq<bv8>, nbits: nat, out: array<bv8>) returns (r: int)
    requires nbits <= 8 * |data|
    modifies out
    ensures var d := Unstuffed(0, Unpacked(data, nbits));
            r == if d.Some? && |d.value| <= 8 * out.Length then |d.value| else -1
    ensures r != -1 ==> Some(Unpacked(out[..], r)) == Unstuffed(0, Unpacked(data, nbits))
  {
    hide GetBit, Unpacked, Unstuffed;
    Clear(out);
    ghost var bits := Unpacked(data, nbits);
    var outIdx := 0;
    var ones := 0;
    assert Unpacked(out[..], 0) == [];
    UnstuffedNothing();
    assert bits[0..] == bits;
    PrependNothing(Unstuffed(0, bits));
    for i := 0 to nbits
      invariant ones <= 5
      invariant outIdx <= 8 * out.Length
      invariant Unstuffed(0, bits) == Prepend(Unpacked(out[..], outIdx), Unstuffed(ones, bits[i..]))
    {
      UnpackedNext(data, nbits, i);
      var b := GetBit(data, i);
      UnstuffedNext(ones, b, bits[i + 1..]);
      if ones == 5 {
        if b {
          return -1;
        }
        ones := 0;
        continue;
      }
      if outIdx / 8 >= out.Length {
        return -1;
      }
      PrependOne(Unpacked(out[..], outIdx), b, Unstuffed(if b then ones + 1 else 0, bits[i + 1..]));
      SetBit(out, outIdx, b);
      outIdx := outIdx + 1;
      ones := if b then ones + 1 else 0;
    }
    assert bits[nbits..] == [];
    assert Unpacked(out[..], outIdx) + [] == Unpacked(out[..], outIdx);
    r := outIdx;
  }

  function Prepend(front: seq<bool>, rest: Option<seq<bool>>): Option<seq<bool>> {
    match rest
    case None => None
    case Some(d) => Some(front + d)
  }

  lemma PrependNothing(rest: Option<seq<bool>>)
    ensures Prepend([], rest) == rest
  {
    if rest.Some? {
      assert [] + rest.value == rest.value;
    }
  }

  lemma PrependOne(front: seq<bool>, b: bool, rest: Option<seq<bool>>)
    ensures Prepend(front, Prepend([b], rest)) == Prepend(front + [b], rest)
  {
    if rest.Some? {
      assert front + ([b] + rest.value) == (front + [b]) + rest.value;
    }
  }

  lemma UnstuffedNothing()
    ensures forall ones: nat :: ones <= 5 ==> Unstuffed(ones, []) == Some([])
  {
  }

  lemma UnstuffedNext(ones: nat, b: bool, rest: seq<bool>)
    requires ones <= 5
    ensures Unstuffed(ones, [b] + rest)
         == if ones == 5 then if b then None else Unstuffed(0, rest)
            else Prepend([b], Unstuffed(if b then ones + 1 else 0, rest))
  {
    assert ([b] + rest)[1..] == rest;
  }
}
