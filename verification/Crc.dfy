/** The three table-driven CRCs, tied to polynomial division. A C unsigned integer is the sequence
    of its bits, most significant first, so that it can be read as a polynomial. */
module Crc {
  import opened Words
  import opened Bitwise
  import opened PolyDivision

  // ---------------------------------------------------------------- unsigned integers as bits

  /** The low n bits of a number. */
  function Bits(v: nat, n: nat): (w: Poly)
    ensures |w| == n
  {
    if n == 0 then [] else Bits(v / 2, n - 1) + [v % 2 == 1]
  }

  function Value(w: Poly): nat {
    if w == [] then 0 else 2 * Value(w[..|w| - 1]) + if w[|w| - 1] then 1 else 0
  }

  lemma {:induction false} BitsOfValue(w: Poly)
    ensures Bits(Value(w), |w|) == w
    ensures Value(w) < Pow2(|w|)
  {
    if w != [] {
      BitsOfValue(w[..|w| - 1]);
      assert w == w[..|w| - 1] + [w[|w| - 1]];
    }
  }

  lemma {:induction false} ValueOfBits(v: nat, n: nat)
    requires v < Pow2(n)
    ensures Value(Bits(v, n)) == v
  {
    if n > 0 {
      ValueOfBits(v / 2, n - 1);
      var w := Bits(v, n);
      assert w[..n - 1] == Bits(v / 2, n - 1);
    }
  }

  lemma ByteIndex(w: Poly)
    requires |w| == 8
    ensures Value(w) < 256 && Bits(Value(w), 8) == w
  {
    BitsOfValue(w);
    assert Pow2(8) == 256;
  }

  function Shl(w: Poly, k: nat): (r: Poly)
    requires k <= |w|
    ensures |r| == |w|
  {
    w[k..] + Zeros(k)
  }

  function Shr(w: Poly, k: nat): (r: Poly)
    requires k <= |w|
    ensures |r| == |w|
  {
    Zeros(k) + w[..|w| - k]
  }

  function Widen(w: Poly, n: nat): (r: Poly)
    requires |w| <= n
    ensures |r| == n
  {
    Zeros(n - |w|) + w
  }

  function LowByte(w: Poly): (r: Poly)
    requires |w| >= 8
    ensures |r| == 8
  {
    w[|w| - 8..]
  }

  function Reverse(w: Poly): (r: Poly)
    ensures |r| == |w| && forall i {:trigger r[i]} :: 0 <= i < |w| ==> r[i] == w[|w| - 1 - i]
  {
    seq(|w|, i requires 0 <= i < |w| => w[|w| - 1 - i])
  }

  // ---------------------------------------------------------------- messages and references

  /** The message bits, each byte most significant bit first. */
  function MessageBits(data: seq<byte>): (p: Poly)
    ensures |p| == 8 * |data|
  {
    if data == [] then [] else MessageBits(data[..|data| - 1]) + Bits(data[|data| - 1], 8)
  }

  /** The message bits in transmission order of Ethernet: each byte least significant bit first. */
  function ReflectedBits(data: seq<byte>): (p: Poly)
    ensures |p| == 8 * |data|
  {
    if data == [] then [] else ReflectedBits(data[..|data| - 1]) + Reverse(Bits(data[|data| - 1], 8))
  }

  const POLY8 := 0x07
  const POLY16 := 0x1021
  const POLY32 := 0x04C1_1DB7
  const POLY32_REFLECTED := 0xEDB8_8320

  function Tail8(): (t: Poly) ensures |t| == 8 { Bits(POLY8, 8) }
  function Tail16(): (t: Poly) ensures |t| == 16 { Bits(POLY16, 16) }
  function Tail32(): (t: Poly) ensures |t| == 32 { Bits(POLY32, 32) }

  /** x^8 + x^2 + x + 1, highest power first and without x^8. */
  lemma Generator8()
    ensures Tail8() == [false, false, false, false] + [false, true, true, true]
  {
    hide Bits;
    NoBits(0);
    Nibble(0x0, 0, false, false, false, false);
    Nibble(0x0, 4, false, true, true, true);
  }

  /** x^16 + x^12 + x^5 + 1. */
  lemma Generator16()
    ensures Tail16() == [false, false, false, true] + [false, false, false, false]
                      + [false, false, true, false] + [false, false, false, true]
  {
    hide Bits;
    NoBits(0);
    Nibble(0x0, 0, false, false, false, true);
    Nibble(0x1, 4, false, false, false, false);
    Nibble(0x10, 8, false, false, true, false);
    Nibble(0x102, 12, false, false, false, true);
  }

  /** The generator of IEEE 802.3, with exponents 32, 26, 23, 22, 16, 12, 11, 10, 8, 7, 5, 4, 2, 1 and 0. */
  lemma Generator32()
    ensures Tail32() == [false, false, false, false] + [false, true, false, false]
                      + [true, true, false, false] + [false, false, false, true]
                      + [false, false, false, true] + [true, true, false, true]
                      + [true, false, true, true] + [false, true, true, true]
  {
    hide Bits;
    NoBits(0);
    Nibble(0x0, 0, false, false, false, false);
    Nibble(0x0, 4, false, true, false, false);
    Nibble(0x4, 8, true, true, false, false);
    Nibble(0x4C, 12, false, false, false, true);
    Nibble(0x4C1, 16, false, false, false, true);
    Nibble(0x4C11, 20, true, true, false, true);
    Nibble(0x4C11D, 24, true, false, true, true);
    Nibble(0x4C11DB, 28, false, true, true, true);
  }

  lemma NoBits(v: nat)
    ensures Bits(v, 0) == []
  {
  }

  lemma Nibble(v: nat, n: nat, a: bool, b: bool, c: bool, d: bool)
    ensures Bits(16 * v + 8 * Digit(a) + 4 * Digit(b) + 2 * Digit(c) + Digit(d), n + 4) == Bits(v, n) + [a, b, c, d]
  {
    hide Bits, Digit;
    OneBit(v, n, a);
    OneBit(2 * v + Digit(a), n + 1, b);
    OneBit(4 * v + 2 * Digit(a) + Digit(b), n + 2, c);
    OneBit(8 * v + 4 * Digit(a) + 2 * Digit(b) + Digit(c), n + 3, d);
  }

  lemma OneBit(v: nat, n: nat, a: bool)
    ensures Bits(2 * v + Digit(a), n + 1) == Bits(v, n) + [a]
  {
  }

  function Digit(a: bool): nat {
    if a then 1 else 0
  }

  lemma {:induction false} BitsAt(v: nat, n: nat, j: nat)
    requires j < n
    ensures Bits(v, n)[j] <==> Bit(v, n - 1 - j)
  {
    if j < n - 1 {
      BitsAt(v / 2, n - 1, j);
    }
  }

  /** Which bit of which byte stands where: most significant first, and for Ethernet least significant first. */
  lemma {:induction false} MessageBitsAt(data: seq<byte>, i: nat, j: nat)
    requires i < |data| && j < 8
    ensures MessageBits(data)[8 * i + j] <==> Bit(data[i], 7 - j)
    ensures ReflectedBits(data)[8 * i + j] <==> Bit(data[i], j)
    decreases |data|
  {
    hide Bits, Bit;
    var last := |data| - 1;
    if i < last {
      MessageBitsAt(data[..last], i, j);
    } else {
      BitsAt(data[i], 8, j);
      BitsAt(data[i], 8, 7 - j);
    }
  }

  // ---------------------------------------------------------------- the reflected constant

  /** The low n bits of v, reversed, appended to those of acc. */
  function ReversedNumber(v: nat, n: nat, acc: nat): nat
    decreases n
  {
    if n == 0 then acc else ReversedNumber(v / 2, n - 1, 2 * acc + v % 2)
  }

  lemma {:induction false} ReverseBits(v: nat, n: nat, acc: nat, m: nat)
    ensures Bits(ReversedNumber(v, n, acc), m + n) == Bits(acc, m) + Reverse(Bits(v, n))
    decreases n
  {
    hide Reverse;
    if n == 0 {
      assert Reverse(Bits(v, n)) == [];
    } else {
      ReverseBits(v / 2, n - 1, 2 * acc + v % 2, m + 1);
      ReverseLast(Bits(v / 2, n - 1), v % 2 == 1);
      assert Bits(acc, m) + [v % 2 == 1] + Reverse(Bits(v / 2, n - 1))
          == Bits(acc, m) + ([v % 2 == 1] + Reverse(Bits(v / 2, n - 1)));
    }
  }

  lemma ReverseLast(w: Poly, bit: bool)
    ensures Reverse(w + [bit]) == [bit] + Reverse(w)
  {
  }

  lemma ReverseNibble(v: nat, n: nat, acc: nat)
    requires n >= 4
    ensures ReversedNumber(v, n, acc)
         == ReversedNumber(v / 16, n - 4, 16 * acc + 8 * (v % 2) + 4 * (v / 2 % 2) + 2 * (v / 4 % 2) + v / 8 % 2)
  {
    assert ReversedNumber(v, n, acc) == ReversedNumber(v / 2, n - 1, 2 * acc + v % 2);
    var a1 := 2 * acc + v % 2;
    assert ReversedNumber(v / 2, n - 1, a1) == ReversedNumber(v / 4, n - 2, 2 * a1 + v / 2 % 2);
    var a2 := 2 * a1 + v / 2 % 2;
    assert ReversedNumber(v / 4, n - 2, a2) == ReversedNumber(v / 8, n - 3, 2 * a2 + v / 4 % 2);
    var a3 := 2 * a2 + v / 4 % 2;
    assert ReversedNumber(v / 8, n - 3, a3) == ReversedNumber(v / 16, n - 4, 2 * a3 + v / 8 % 2);
  }

  /** The constant of the reflected algorithm is POLY32 with its bits reversed. */
  lemma ReflectedConstant()
    ensures Reverse(Bits(POLY32_REFLECTED, 32)) == Tail32()
  {
    hide Bits, Reverse, ReversedNumber;
    ReverseNibble(0xEDB8_8320, 32, 0);
    ReverseNibble(0xEDB_8832, 28, 0x0);
    ReverseNibble(0xED_B883, 24, 0x04);
    ReverseNibble(0xE_DB88, 20, 0x04C);
    ReverseNibble(0xEDB8, 16, 0x04C1);
    ReverseNibble(0xEDB, 12, 0x0_4C11);
    ReverseNibble(0xED, 8, 0x04_C11D);
    ReverseNibble(0xE, 4, 0x04C_11DB);
    NothingLeft(0x04C1_1DB7);
    ReverseBits(0xEDB8_8320, 32, 0, 0);
    assert Bits(0, 0) == [];
  }

  lemma NothingLeft(acc: nat)
    ensures ReversedNumber(0, 0, acc) == acc
  {
  }

  // ---------------------------------------------------------------- bit-level facts

  lemma {:induction false} LowBits(v: nat, n: nat, k: nat)
    requires k <= n
    ensures Bits(v, n)[n - k..] == Bits(v, k)
    decreases k
  {
    if k > 0 {
      LowBits(v / 2, n - 1, k - 1);
    }
  }

  lemma {:induction false} LeadingZeros(v: nat, n: nat, k: nat)
    requires v < Pow2(k)
    ensures Bits(v, n + k) == Widen(Bits(v, k), n + k)
    decreases n + k
  {
    if k > 0 {
      LeadingZeros(v / 2, n, k - 1);
    } else if n > 0 {
      LeadingZeros(0, n - 1, 0);
    }
  }

  lemma {:induction false} AllOnes(v: nat, n: nat)
    requires v + 1 == Pow2(n)
    ensures Bits(v, n) == Ones(n)
  {
    if n > 0 {
      AllOnes(v / 2, n - 1);
    }
  }

  lemma Pow2Byte(n: nat)
    ensures Pow2(n + 8) == 256 * Pow2(n)
  {
    assert Pow2(n + 2) == 4 * Pow2(n);
    assert Pow2(n + 4) == 4 * Pow2(n + 2);
    assert Pow2(n + 6) == 4 * Pow2(n + 4);
  }

  lemma StartValues()
    ensures Bits(0, 8) == Zeros(8) && Bits(0xFFFF, 16) == Ones(16) && Bits(0xFFFF_FFFF, 32) == Ones(32)
    ensures Pow2(8) == 256
  {
    hide Bits;
    Pow2Byte(0);
    Pow2Byte(8);
    Pow2Byte(16);
    Pow2Byte(24);
    AllOnes(0xFFFF, 16);
    AllOnes(0xFFFF_FFFF, 32);
    LeadingZeros(0, 8, 0);
    assert Pow2(0) == 1;
  }

  lemma ReverseXor(a: Poly, b: Poly)
    requires |a| == |b|
    ensures Reverse(Xor(a, b)) == Xor(Reverse(a), Reverse(b))
  {
  }

  lemma ReverseTwice(a: Poly)
    ensures Reverse(Reverse(a)) == a
  {
  }

  lemma ReverseShr(w: Poly, k: nat)
    requires k <= |w|
    ensures Reverse(Shr(w, k)) == Shl(Reverse(w), k)
  {
  }

  lemma ReverseWiden(w: Poly, n: nat)
    requires |w| <= n
    ensures Reverse(Widen(w, n)) == Reverse(w) + Zeros(n - |w|)
  {
  }

  // ---------------------------------------------------------------- tables

  /** What a table holds for byte value i: the register after shifting that byte out of its top end. */
  function Entry(i: nat, tail: Poly): (e: Poly)
    requires |tail| >= 8
    ensures |e| == |tail|
  {
    Run(Bits(i, 8) + Zeros(|tail| - 8), Zeros(8), tail)
  }

  function ReflectedEntry(i: nat, tail: Poly): (e: Poly)
    requires |tail| >= 8
    ensures |e| == |tail|
  {
    Run(Reverse(Bits(i, 8)) + Zeros(|tail| - 8), Zeros(8), tail)
  }

  /** One byte through the register by table look-up. */
  lemma ByteStep(crc: Poly, d: byte, tail: Poly)
    requires |crc| == |tail| >= 8
    ensures
      var index := Xor(crc[..8], Bits(d, 8));
      && Value(index) < 256
      && Run(crc, Bits(d, 8), tail) == Xor(Shl(crc, 8), Entry(Value(index), tail))
  {
    hide Run, Xor, Zeros, Bits, Value;
    TableStep(crc, Bits(d, 8), tail);
    ByteIndex(Xor(crc[..8], Bits(d, 8)));
  }

  lemma ReflectedByteStep(crc: Poly, d: byte, tail: Poly)
    requires |crc| == |tail| >= 8
    ensures
      var index := Xor(Reverse(crc[..8]), Bits(d, 8));
      && Value(index) < 256
      && Run(crc, Reverse(Bits(d, 8)), tail) == Xor(Shl(crc, 8), ReflectedEntry(Value(index), tail))
  {
    hide Run, Xor, Zeros, Bits, Value, Reverse;
    TableStep(crc, Reverse(Bits(d, 8)), tail);
    ByteIndex(Xor(Reverse(crc[..8]), Bits(d, 8)));
    ReverseXor(Reverse(crc[..8]), Bits(d, 8));
    ReverseTwice(crc[..8]);
  }

  lemma ForwardShift(crc: Poly, tail: Poly)
    requires |crc| == |tail| > 0
    ensures Step(crc, false, tail) == if crc[0] then Xor(Shl(crc, 1), tail) else Shl(crc, 1)
  {
    assert Zeros(1) == [false];
  }

  method ShiftByteOut(start: Poly, tail: Poly) returns (crc: Poly)
    requires |start| == |tail| > 0
    ensures crc == Run(start, Zeros(8), tail)
  {
    hide Step, Xor, Zeros, Shl;
    crc := start;
    for bit := 0 to 8
      invariant |crc| == |tail|
      invariant Run(crc, Zeros(8 - bit), tail) == Run(start, Zeros(8), tail)
    {
      assert Zeros(8 - bit)[1..] == Zeros(8 - (bit + 1));
      ForwardShift(crc, tail);
      if crc[0] {
        crc := Xor(Shl(crc, 1), tail);
      } else {
        crc := Shl(crc, 1);
      }
    }
  }

  method ShiftReflectedByteOut(start: Poly, reflectedTail: Poly) returns (crc: Poly)
    requires |start| == |reflectedTail| > 0
    ensures |crc| == |start|
    ensures Reverse(crc) == Run(Reverse(start), Zeros(8), Reverse(reflectedTail))
  {
    hide Step, Xor, Zeros, Shr, Reverse;
    crc := start;
    var n := |start|;
    for bit := 0 to 8
      invariant |crc| == n
      invariant Run(Reverse(crc), Zeros(8 - bit), Reverse(reflectedTail))
             == Run(Reverse(start), Zeros(8), Reverse(reflectedTail))
    {
      ZerosNext(7 - bit);
      ReflectedShift(crc, reflectedTail);
      if crc[n - 1] {
        crc := Xor(Shr(crc, 1), reflectedTail);
      } else {
        crc := Shr(crc, 1);
      }
    }
  }

  lemma ZerosNext(k: nat)
    ensures Zeros(k + 1) != [] && !Zeros(k + 1)[0] && Zeros(k + 1)[1..] == Zeros(k)
  {
  }

  lemma ReflectedShift(crc: Poly, reflectedTail: Poly)
    requires |crc| == |reflectedTail| > 0
    ensures Step(Reverse(crc), false, Reverse(reflectedTail))
         == Reverse(if crc[|crc| - 1] then Xor(Shr(crc, 1), reflectedTail) else Shr(crc, 1))
  {
    hide Xor;
    ReverseShr(crc, 1);
    ReverseXor(Shr(crc, 1), reflectedTail);
  }

  // ---------------------------------------------------------------- references

  /** The remainder of the message polynomial, the register's start value added to its top. */
  ghost function Crc8Of(data: seq<byte>): Poly {
    Remainder(Dividend(Zeros(8), MessageBits(data)), Tail8())
  }

  ghost function Crc16Of(data: seq<byte>): Poly {
    Remainder(Dividend(Ones(16), MessageBits(data)), Tail16())
  }

  /** Clause 3.2.9 of IEEE 802.3: the complement of the remainder, in transmission order. */
  ghost function Crc32Of(data: seq<byte>): Poly {
    Xor(Remainder(Dividend(Ones(32), ReflectedBits(data)), Tail32()), Ones(32))
  }

  /** With nothing to divide, the start values (and for CRC-32 the final complement) are all that is seen. */
  lemma EmptyMessages()
    ensures Crc8Of([]) == Zeros(8) && Crc16Of([]) == Ones(16) && Crc32Of([]) == Zeros(32)
  {
    hide Tail8, Tail16, Tail32;
    DividendOfNothing(Zeros(8));
    DividendOfNothing(Ones(16));
    DividendOfNothing(Ones(32));
    XorSelf(Ones(32));
  }

  lemma DividendOfNothing(r: Poly)
    ensures Dividend(r, []) == r
  {
    forall i | 0 <= i < |r| ensures Dividend(r, [])[i] == r[i] {
      DividendAt(r, [], i);
    }
  }

  // ---------------------------------------------------------------- the table-driven loops

  class Tables {
    var table8: array<Poly>
    var table16: array<Poly>
    var table32: array<Poly>
    var ready8: bool
    var ready16: bool
    var ready32: bool

    ghost predicate Valid()
      reads this, table8, table16, table32
    {
      && table8.Length == table16.Length == table32.Length == 256
      && table8 != table16 && table16 != table32 && table8 != table32
      && (ready8 ==> forall i :: 0 <= i < 256 ==> table8[i] == Entry(i, Tail8()))
      && (ready16 ==> forall i :: 0 <= i < 256 ==> table16[i] == Entry(i, Tail16()))
      && (ready32 ==> forall i :: 0 <= i < 256 ==>
            |table32[i]| == 32 && Reverse(table32[i]) == ReflectedEntry(i, Tail32()))
    }

    constructor ()
      ensures Valid() && !ready8 && !ready16 && !ready32
      ensures fresh(table8) && fresh(table16) && fresh(table32)
    {
      table8 := new Poly[256](_ => []);
      table16 := new Poly[256](_ => []);
      table32 := new Poly[256](_ => []);
      ready8, ready16, ready32 := false, false, false;
    }

    method InitTable8()
      requires Valid()
      modifies this`ready8, table8
      ensures Valid() && ready8
    {
      hide Entry, ReflectedEntry, Bits, Run;
      for i := 0 to 256
        invariant forall k :: 0 <= k < i ==> table8[k] == Entry(k, Tail8())
      {
        var crc := Bits(i, 8);
        EntryStart(i, 8);
        crc := ShiftByteOut(crc, Tail8());
        EntryIs(i, Tail8());
        table8[i] := crc;
      }
      ready8 := true;
    }

    method InitTable16()
      requires Valid()
      modifies this`ready16, table16
      ensures Valid() && ready16
    {
      hide Entry, ReflectedEntry, Bits, Run;
      for i := 0 to 256
        invariant forall k :: 0 <= k < i ==> table16[k] == Entry(k, Tail16())
      {
        var crc := Shl(Bits(i, 16), 8);
        EntryStart(i, 16);
        crc := ShiftByteOut(crc, Tail16());
        EntryIs(i, Tail16());
        table16[i] := crc;
      }
      ready16 := true;
    }

    method InitTable32()
      requires Valid()
      modifies this`ready32, table32
      ensures Valid() && ready32
    {
      hide Entry, ReflectedEntry, Bits, Run, Reverse;
      ReflectedConstant();
      for i := 0 to 256
        invariant forall k :: 0 <= k < i ==>
          |table32[k]| == 32 && Reverse(table32[k]) == ReflectedEntry(k, Tail32())
      {
        var crc := Bits(i, 32);
        ReflectedEntryStart(i, 32);
        crc := ShiftReflectedByteOut(crc, Bits(POLY32_REFLECTED, 32));
        ReflectedEntryIs(i, Tail32());
        table32[i] := crc;
      }
      ready32 := true;
    }

    method Crc8(data: seq<byte>) returns (crc: Poly)
      requires Valid()
      modifies this`ready8, table8
      ensures Valid()
      ensures crc == Crc8Of(data)
    {
      hide Entry, ReflectedEntry, Bits, Run, Value, Xor, Zeros, Ones, Shl, Shr, Widen, LowByte, Reverse, Remainder, Dividend,
           MessageBits, ReflectedBits, Tail8, Tail16, Tail32;
      if !ready8 {
        InitTable8();
      }
      crc := Bits(0, 8);
      StartValues();
      MessageStart(Zeros(8), data, Tail8());
      for i := 0 to |data|
        invariant Valid() && ready8 && |crc| == 8
        invariant crc == Run(Zeros(8), MessageBits(data[..i]), Tail8())
      {
        MessageStep(Zeros(8), data, i, Tail8());
        Crc8Step(crc, data[i]);
        crc := table8[Value(Xor(crc, Bits(data[i], 8)))];
      }
      MessageEnd(Zeros(8), data, Tail8());
    }

    method Crc16(data: seq<byte>) returns (crc: Poly)
      requires Valid()
      modifies this`ready16, table16
      ensures Valid()
      ensures crc == Crc16Of(data)
    {
      hide Entry, ReflectedEntry, Bits, Run, Value, Xor, Zeros, Ones, Shl, Shr, Widen, LowByte, Reverse, Remainder, Dividend,
           MessageBits, ReflectedBits, Tail8, Tail16, Tail32;
      if !ready16 {
        InitTable16();
      }
      crc := Bits(0xFFFF, 16);
      StartValues();
      MessageStart(Ones(16), data, Tail16());
      for i := 0 to |data|
        invariant Valid() && ready16 && |crc| == 16
        invariant crc == Run(Ones(16), MessageBits(data[..i]), Tail16())
      {
        MessageStep(Ones(16), data, i, Tail16());
        Crc16Step(crc, data[i]);
        var index := LowByte(Xor(Shr(crc, 8), Widen(Bits(data[i], 8), 16)));
        crc := Xor(Shl(crc, 8), table16[Value(index)]);
      }
      MessageEnd(Ones(16), data, Tail16());
    }

    method Crc32(data: seq<byte>) returns (crc: Poly)
      requires Valid()
      modifies this`ready32, table32
      ensures Valid()
      ensures Reverse(crc) == Crc32Of(data)
    {
      hide Entry, ReflectedEntry, Bits, Run, Value, Xor, Zeros, Ones, Shl, Shr, Widen, LowByte, Reverse, Remainder, Dividend,
           MessageBits, ReflectedBits, Tail8, Tail16, Tail32;
      if !ready32 {
        InitTable32();
      }
      crc := Bits(0xFFFF_FFFF, 32);
      StartValues();
      ReverseOnes(32);
      MessageStart(Ones(32), data, Tail32());
      for i := 0 to |data|
        invariant Valid() && ready32 && |crc| == 32
        invariant Reverse(crc) == Run(Ones(32), ReflectedBits(data[..i]), Tail32())
      {
        ReflectedMessageStep(Ones(32), data, i, Tail32());
        var index := LowByte(Xor(crc, Widen(Bits(data[i], 8), 32)));
        Crc32Index(crc, data[i]);
        var entry := table32[Value(index)];
        Crc32Step(crc, data[i], entry);
        crc := Xor(Shr(crc, 8), entry);
      }
      MessageEnd(Ones(32), data, Tail32());
      ReverseXor(crc, Ones(32));
      crc := Xor(crc, Bits(0xFFFF_FFFF, 32));
    }
  }

  lemma MessageStart(r: Poly, data: seq<byte>, tail: Poly)
    requires |r| == |tail| > 0
    ensures Run(r, MessageBits(data[..0]), tail) == Run(r, ReflectedBits(data[..0]), tail) == r
  {
  }

  lemma MessageEnd(r: Poly, data: seq<byte>, tail: Poly)
    requires |r| == |tail| > 0
    ensures Run(r, MessageBits(data[..|data|]), tail) == Remainder(Dividend(r, MessageBits(data)), tail)
    ensures Run(r, ReflectedBits(data[..|data|]), tail) == Remainder(Dividend(r, ReflectedBits(data)), tail)
  {
    assert data[..|data|] == data;
    RunIsRemainder(r, MessageBits(data), tail);
    RunIsRemainder(r, ReflectedBits(data), tail);
  }

  lemma Crc8Step(crc: Poly, d: byte)
    requires |crc| == 8
    ensures
      var index := Value(Xor(crc, Bits(d, 8)));
      index < 256 && Entry(index, Tail8()) == Run(crc, Bits(d, 8), Tail8())
  {
    hide Run, Entry, Value, Bits, Xor, Shl;
    ByteStep(crc, d, Tail8());
    NothingBelow(crc, d);
  }

  lemma Crc16Step(crc: Poly, d: byte)
    requires |crc| == 16
    ensures
      var index := Value(LowByte(Xor(Shr(crc, 8), Widen(Bits(d, 8), 16))));
      index < 256 && Xor(Shl(crc, 8), Entry(index, Tail16())) == Run(crc, Bits(d, 8), Tail16())
  {
    hide Run, Entry, Value, Bits, Xor, Shl, Shr, Widen, LowByte;
    ByteStep(crc, d, Tail16());
    TopByteIndex(crc, Bits(d, 8));
  }

  lemma Crc32Index(crc: Poly, d: byte)
    requires |crc| == 32
    ensures Value(LowByte(Xor(crc, Widen(Bits(d, 8), 32)))) < 256
  {
    ByteIndex(LowByte(Xor(crc, Widen(Bits(d, 8), 32))));
  }

  lemma Crc32Step(crc: Poly, d: byte, entry: Poly)
    requires |crc| == |entry| == 32
    requires Reverse(entry) == ReflectedEntry(Value(LowByte(Xor(crc, Widen(Bits(d, 8), 32)))), Tail32())
    ensures Reverse(Xor(Shr(crc, 8), entry)) == Run(Reverse(crc), Reverse(Bits(d, 8)), Tail32())
  {
    hide Run, ReflectedEntry, Value, Bits, Xor, Shl, Shr, Widen, LowByte, Reverse;
    ReflectedByteStep(Reverse(crc), d, Tail32());
    BottomByteIndex(crc, Bits(d, 8));
    ReverseShr(crc, 8);
    ReverseXor(Shr(crc, 8), entry);
  }

  lemma EntryStart(i: nat, n: nat)
    requires i < 256 && (n == 8 || n == 16)
    ensures n == 8 ==> Bits(i, 8) == Bits(i, 8) + Zeros(0)
    ensures n == 16 ==> Shl(Bits(i, 16), 8) == Bits(i, 8) + Zeros(8)
  {
    LowBits(i, n, 8);
  }

  lemma EntryIs(i: nat, tail: Poly)
    requires |tail| >= 8
    ensures Entry(i, tail) == Run(Bits(i, 8) + Zeros(|tail| - 8), Zeros(8), tail)
  {
  }

  lemma ReflectedEntryStart(i: nat, n: nat)
    requires i < 256 && n >= 8
    ensures Reverse(Bits(i, n)) == Reverse(Bits(i, 8)) + Zeros(n - 8)
  {
    hide Bits;
    StartValues();
    LeadingZeros(i, n - 8, 8);
    ReverseWiden(Bits(i, 8), n);
  }

  lemma ReflectedEntryIs(i: nat, tail: Poly)
    requires |tail| >= 8
    ensures ReflectedEntry(i, tail) == Run(Reverse(Bits(i, 8)) + Zeros(|tail| - 8), Zeros(8), tail)
  {
  }

  lemma MessageStep(r: Poly, data: seq<byte>, i: nat, tail: Poly)
    requires |r| == |tail| > 0 && i < |data|
    ensures Run(r, MessageBits(data[..i + 1]), tail)
         == Run(Run(r, MessageBits(data[..i]), tail), Bits(data[i], 8), tail)
  {
    hide Run, Bits;
    assert data[..i + 1][..i] == data[..i];
    RunAppend(r, MessageBits(data[..i]), Bits(data[i], 8), tail);
  }

  lemma ReflectedMessageStep(r: Poly, data: seq<byte>, i: nat, tail: Poly)
    requires |r| == |tail| > 0 && i < |data|
    ensures Run(r, ReflectedBits(data[..i + 1]), tail)
         == Run(Run(r, ReflectedBits(data[..i]), tail), Reverse(Bits(data[i], 8)), tail)
  {
    hide Run, Bits, Reverse;
    assert data[..i + 1][..i] == data[..i];
    RunAppend(r, ReflectedBits(data[..i]), Reverse(Bits(data[i], 8)), tail);
  }

  /** An 8-bit register is shifted out entirely, so the table entry is all that remains. */
  lemma NothingBelow(crc: Poly, d: byte)
    requires |crc| == 8
    ensures crc[..8] == crc
    ensures forall e: Poly :: |e| == 8 ==> Xor(Shl(crc, 8), e) == e
  {
    assert Shl(crc, 8) == Zeros(8);
    forall e: Poly | |e| == 8 ensures Xor(Shl(crc, 8), e) == e {
      XorZeros(e);
    }
  }

  lemma TopByteIndex(crc: Poly, d: Poly)
    requires |crc| == 16 && |d| == 8
    ensures LowByte(Xor(Shr(crc, 8), Widen(d, 16))) == Xor(crc[..8], d)
  {
  }

  lemma BottomByteIndex(crc: Poly, d: Poly)
    requires |crc| == 32 && |d| == 8
    ensures LowByte(Xor(crc, Widen(d, 32))) == Xor(Reverse(Reverse(crc)[..8]), d)
  {
  }

  lemma ReverseOnes(n: nat)
    ensures Reverse(Ones(n)) == Ones(n)
  {
  }

  // ---------------------------------------------------------------- error detection

  lemma TailsAreOdd()
    ensures Tail8()[7] && Tail16()[15] && Tail32()[31]
  {
  }

  /** A burst error of up to 8, 16 or 32 consecutive bits, anywhere in a message, changes the CRC. */
  lemma BurstsAreDetected(a: seq<byte>, b: seq<byte>, w: nat)
    requires |a| == |b| && a != b && w <= 8 * |a|
    ensures DifferOnlyIn(MessageBits(a), MessageBits(b), w, 8) ==> Crc8Of(a) != Crc8Of(b)
    ensures DifferOnlyIn(MessageBits(a), MessageBits(b), w, 16) ==> Crc16Of(a) != Crc16Of(b)
    ensures DifferOnlyIn(ReflectedBits(a), ReflectedBits(b), w, 32) ==> Crc32Of(a) != Crc32Of(b)
  {
    hide Run, Remainder, Dividend, MessageBits, ReflectedBits, DifferOnlyIn, Xor, Tail8, Tail16, Tail32;
    TailsAreOdd();
    MessageBitsInjective(a, b);
    if DifferOnlyIn(MessageBits(a), MessageBits(b), w, 8) {
      BurstDetected(Zeros(8), MessageBits(a), MessageBits(b), w, Tail8());
      RunIsRemainder(Zeros(8), MessageBits(a), Tail8());
      RunIsRemainder(Zeros(8), MessageBits(b), Tail8());
    }
    if DifferOnlyIn(MessageBits(a), MessageBits(b), w, 16) {
      BurstDetected(Ones(16), MessageBits(a), MessageBits(b), w, Tail16());
      RunIsRemainder(Ones(16), MessageBits(a), Tail16());
      RunIsRemainder(Ones(16), MessageBits(b), Tail16());
    }
    if DifferOnlyIn(ReflectedBits(a), ReflectedBits(b), w, 32) {
      BurstDetected(Ones(32), ReflectedBits(a), ReflectedBits(b), w, Tail32());
      RunIsRemainder(Ones(32), ReflectedBits(a), Tail32());
      RunIsRemainder(Ones(32), ReflectedBits(b), Tail32());
      XorCancels(Remainder(Dividend(Ones(32), ReflectedBits(a)), Tail32()),
                 Remainder(Dividend(Ones(32), ReflectedBits(b)), Tail32()), Ones(32));
    }
  }

  lemma XorCancels(a: Poly, b: Poly, c: Poly)
    requires |a| == |b| == |c|
    ensures Xor(a, c) == Xor(b, c) ==> a == b
  {
    if Xor(a, c) == Xor(b, c) {
      forall i | 0 <= i < |a| ensures a[i] == b[i] {
        assert Xor(a, c)[i] == Xor(b, c)[i];
      }
    }
  }

  lemma BitsInjective(v: byte, w: byte)
    ensures Bits(v, 8) == Bits(w, 8) ==> v == w
  {
    hide Bits;
    StartValues();
    ValueOfBits(v, 8);
    ValueOfBits(w, 8);
  }

  lemma {:induction false} MessageBitsInjective(a: seq<byte>, b: seq<byte>)
    requires |a| == |b|
    ensures MessageBits(a) == MessageBits(b) <==> a == b
    ensures ReflectedBits(a) == ReflectedBits(b) <==> a == b
  {
    hide Bits, Reverse, MessageBits, ReflectedBits;
    if a == [] {
      assert a == b;
    } else {
      var n := |a| - 1;
      LastByteOf(a);
      LastByteOf(b);
      MessageBitsInjective(a[..n], b[..n]);
      BitsInjective(a[n], b[n]);
      ReverseTwice(Bits(a[n], 8));
      ReverseTwice(Bits(b[n], 8));
      LastByte(MessageBits(a[..n]), Bits(a[n], 8), MessageBits(b[..n]), Bits(b[n], 8));
      LastByte(ReflectedBits(a[..n]), Reverse(Bits(a[n], 8)), ReflectedBits(b[..n]), Reverse(Bits(b[n], 8)));
      assert a == a[..n] + [a[n]] && b == b[..n] + [b[n]];
    }
  }

  lemma LastByteOf(a: seq<byte>)
    requires a != []
    ensures MessageBits(a) == MessageBits(a[..|a| - 1]) + Bits(a[|a| - 1], 8)
    ensures ReflectedBits(a) == ReflectedBits(a[..|a| - 1]) + Reverse(Bits(a[|a| - 1], 8))
  {
  }

  lemma LastByte(a: Poly, x: Poly, b: Poly, y: Poly)
    requires |a| == |b| && |x| == |y|
    ensures a + x == b + y <==> a == b && x == y
  {
    if a + x == b + y {
      assert (a + x)[..|a|] == a && (b + y)[..|b|] == b;
      assert (a + x)[|a|..] == x && (b + y)[|b|..] == y;
    }
  }

  /** Bytes that agree give bits that agree. */
  lemma {:induction false} BitsOfEqualBytes(a: seq<byte>, b: seq<byte>, from: nat, count: nat)
    requires |a| == |b|
    requires forall i :: 0 <= i < |a| && (i < from || from + count <= i) ==> a[i] == b[i]
    ensures DifferOnlyIn(MessageBits(a), MessageBits(b), 8 * from, 8 * count)
    ensures DifferOnlyIn(ReflectedBits(a), ReflectedBits(b), 8 * from, 8 * count)
  {
    hide Bits, Reverse;
    if a != [] {
      var n := |a| - 1;
      BitsOfEqualBytes(a[..n], b[..n], from, count);
    }
  }

  /** Equal-length messages that differ only inside 1, 2 or 4 consecutive bytes have different
      CRC-8, CRC-16 and CRC-32 values respectively. */
  lemma ByteBurstsAreDetected(a: seq<byte>, b: seq<byte>, from: nat, count: nat)
    requires |a| == |b| && a != b && from <= |a|
    requires forall i :: 0 <= i < |a| && (i < from || from + count <= i) ==> a[i] == b[i]
    ensures count <= 1 ==> Crc8Of(a) != Crc8Of(b)
    ensures count <= 2 ==> Crc16Of(a) != Crc16Of(b)
    ensures count <= 4 ==> Crc32Of(a) != Crc32Of(b)
  {
    hide Crc8Of, Crc16Of, Crc32Of, MessageBits, ReflectedBits;
    BitsOfEqualBytes(a, b, from, count);
    BurstsAreDetected(a, b, 8 * from);
  }
}
