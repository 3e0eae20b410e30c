/** The Internet checksum and its incremental update. */
module Checksum {
  import opened Words

  // ---------------------------------------------------------------- reference

  function Word(high: byte, low: byte): u16 {
    (high as int) * 256 + low as int
  }

  /** The unbounded sum of the big-endian 16-bit words of a buffer; an odd last byte is padded with zero. */
  function WordSum(data: seq<byte>): nat {
    if data == [] then 0
    else if |data| == 1 then Word(data[0], 0)
    else Word(data[0], data[1]) + WordSum(data[2..])
  }

  /** The bytes at even positions weigh 256, those at odd positions 1. */
  function PositionSum(data: seq<byte>): nat {
    if data == [] then 0
    else
      var last := |data| - 1;
      PositionSum(data[..last]) + if last % 2 == 0 then 256 * data[last] else data[last] as int
  }

  lemma {:induction false} PositionSumFront(data: seq<byte>)
    requires |data| >= 2
    ensures PositionSum(data) == 256 * data[0] + data[1] + PositionSum(data[2..])
    decreases |data|
  {
    var last := |data| - 1;
    if |data| == 2 {
      assert data[..1][..0] == [] && data[2..] == [];
    } else if |data| == 3 {
      PositionSumFront(data[..2]);
      assert data[..2][2..] == [] && data[2..][..0] == [];
    } else {
      PositionSumFront(data[..last]);
      assert data[..last][2..] == data[2..][..last - 2];
    }
  }

  /** The sum of the words, whatever order they are added in, and for every length. */
  lemma {:induction false} WordSumByPosition(data: seq<byte>)
    ensures WordSum(data) == PositionSum(data)
    decreases |data|
  {
    if |data| == 1 {
      assert data[..0] == [];
    } else if |data| >= 2 {
      WordSumByPosition(data[2..]);
      PositionSumFront(data);
    }
  }

  /** A zero byte behind an odd buffer changes nothing: that is how the last byte is padded. */
  lemma PaddingIsOnTheRight(data: seq<byte>)
    requires |data| % 2 == 1
    ensures WordSum(data + [0]) == WordSum(data) && RfcChecksum(data + [0]) == RfcChecksum(data)
  {
    WordSumByPosition(data);
    WordSumByPosition(data + [0]);
    assert (data + [0])[..|data|] == data;
  }

  /** The 16-bit one's-complement value of a sum: end-around carries take off 65535 at a time,
      and 65535 stands for the zero of every nonzero sum. */
  function Ones(x: nat): (r: u16)
    ensures r == 0 <==> x == 0
  {
    if x <= 65535 then x else Ones(x - 65535)
  }

  /** The checksum of RFC 1071: the complement of the one's-complement sum of the words. */
  function RfcChecksum(data: seq<byte>): u16 {
    65535 - Ones(WordSum(data))
  }

  lemma {:induction false} OnesOfMore(x: nat, q: nat)
    requires x > 0
    ensures Ones(x + 65535 * q) == Ones(x)
  {
    if q > 0 {
      OnesOfMore(x, q - 1);
      assert x + 65535 * q - 65535 == x + 65535 * (q - 1);
    }
  }

  lemma {:induction false} OnesRemainder(x: nat) returns (q: nat)
    ensures x == Ones(x) + 65535 * q
  {
    if x <= 65535 {
      q := 0;
    } else {
      q := OnesRemainder(x - 65535);
      q := q + 1;
    }
  }

  /** Folding the carries into the low half keeps the one's-complement value. */
  lemma FoldKeepsOnes(x: nat)
    ensures Ones(x % TWO_16 + x / TWO_16) == Ones(x)
    ensures x >= TWO_16 ==> x % TWO_16 + x / TWO_16 < x
  {
    var q, r := x / TWO_16, x % TWO_16;
    assert x == (r + q) + 65535 * q;
    if x > 0 {
      OnesOfMore(r + q, q);
    }
  }

  // ---------------------------------------------------------------- the loops

  method Partial(data: seq<byte>, seed: u32) returns (sum: u32)
    ensures sum == (seed + WordSum(data)) % TWO_32
  {
    sum := seed;
    ghost var wraps := 0;
    var p, len := 0, |data|;
    while len >= 2
      invariant 0 <= p && 0 <= len && p + len == |data| && 0 <= wraps
      invariant sum + TWO_32 * wraps + WordSum(data[p..]) == seed + WordSum(data)
    {
      assert data[p..][2..] == data[p + 2..];
      var w := Word(data[p], data[p + 1]);
      wraps := if sum + w >= TWO_32 then wraps + 1 else wraps;
      sum := Add32(sum, w);
      p, len := p + 2, len - 2;
    }
    if len == 1 {
      var w := Word(data[p], 0);
      wraps := if sum + w >= TWO_32 then wraps + 1 else wraps;
      sum := Add32(sum, w);
    }
    ModShift(sum, wraps);
  }

  method Fold(partial: u32) returns (check: u16)
    ensures check == 65535 - Ones(partial)
  {
    var s: nat := partial;
    while s / TWO_16 != 0
      invariant Ones(s) == Ones(partial)
      decreases s
    {
      FoldKeepsOnes(s);
      s := s % TWO_16 + s / TWO_16;
    }
    check := 65535 - s;
  }

  /** The largest number of words whose sum always fits the 32-bit accumulator. */
  const MAX_WORDS := 65537

  function Words16(data: seq<byte>): nat {
    (|data| + 1) / 2
  }

  lemma {:induction false} WordSumBound(data: seq<byte>)
    ensures WordSum(data) <= Words16(data) * 65535
  {
    if |data| > 1 {
      WordSumBound(data[2..]);
    }
  }

  /** What the code computes for any buffer; it is the RFC's checksum when the sum does not wrap. */
  method InternetChecksum(data: seq<byte>) returns (check: u16)
    ensures check == 65535 - Ones(WordSum(data) % TWO_32)
    ensures Words16(data) <= MAX_WORDS ==> check == RfcChecksum(data)
  {
    var sum := Partial(data, 0);
    check := Fold(sum);
    WordSumBound(data);
  }

  method Update(oldCheck: u16, oldWord: u16, newWord: u16) returns (check: u16)
    ensures check == Updated(oldCheck, oldWord, newWord)
  {
    var s := 65535 - oldCheck;
    s := s + (65535 - oldWord);
    s := s + newWord;
    check := Fold(s);
  }

  /** Equation 3 of section 3 of RFC 1624. */
  function Updated(oldCheck: u16, oldWord: u16, newWord: u16): u16 {
    65535 - Ones((65535 - oldCheck) + (65535 - oldWord) + newWord)
  }

  /** What an even run of replaced bytes adds to the accumulator. */
  function DeltaSum(o: seq<byte>, n: seq<byte>): nat
    requires |o| == |n|
  {
    if |o| < 2 then 0
    else (65535 - Word(o[0], o[1])) + Word(n[0], n[1]) + DeltaSum(o[2..], n[2..])
  }

  function UpdatedN(oldCheck: u16, o: seq<byte>, n: seq<byte>): u16
    requires |o| == |n|
  {
    65535 - Ones(Low32(65535 - oldCheck + DeltaSum(o, n)))
  }

  method UpdateN(oldCheck: u16, o: seq<byte>, n: seq<byte>) returns (check: u16)
    requires |o| == |n| && |o| % 2 == 0
    ensures check == UpdatedN(oldCheck, o, n)
  {
    hide Low32, Ones;
    var s: u32 := 65535 - oldCheck;
    ghost var words, k, wraps := |n| / 2, 0, 0;
    assert |n| == 2 * words;
    var i := 0;
    while i < |n|
      invariant 0 <= i == 2 * k <= 2 * words
      invariant 0 <= wraps
      invariant s + TWO_32 * wraps + DeltaSum(o[i..], n[i..]) == 65535 - oldCheck + DeltaSum(o, n)
    {
      var oldWord := Word(o[i], o[i + 1]);
      var newWord := Word(n[i], n[i + 1]);
      assert o[i..][2..] == o[i + 2..] && n[i..][2..] == n[i + 2..];
      if s + (65535 - oldWord) + newWord >= TWO_32 {
        wraps := wraps + 1;
      }
      s := Add32(s, 65535 - oldWord);
      s := Add32(s, newWord);
      i, k := i + 2, k + 1;
    }
    ModShift(s, wraps);
    WrapIsModular(0, 0, 65535 - oldCheck + DeltaSum(o, n));
    check := Fold(s);
  }

  // ---------------------------------------------------------------- splitting and joining

  /** Checksumming buffer after buffer, each the seed of the next, is checksumming them joined,
      as long as every buffer but the last has even length. */
  lemma {:induction false} WordSumAppend(a: seq<byte>, b: seq<byte>)
    requires |a| % 2 == 0
    ensures WordSum(a + b) == WordSum(a) + WordSum(b)
  {
    if a == [] {
      assert a + b == b;
    } else {
      assert (a + b)[2..] == a[2..] + b;
      WordSumAppend(a[2..], b);
    }
  }

  ghost predicate AllZero(data: seq<byte>) {
    forall i :: 0 <= i < |data| ==> data[i] == 0
  }

  lemma {:induction false} WordSumZero(data: seq<byte>)
    ensures WordSum(data) == 0 <==> AllZero(data)
  {
    if |data| > 1 {
      WordSumZero(data[2..]);
      assert forall i :: 2 <= i < |data| ==> data[i] == data[2..][i - 2];
    }
  }

  lemma {:induction false} DeltaSumIsDifference(o: seq<byte>, n: seq<byte>)
    requires |o| == |n| && |o| % 2 == 0
    ensures DeltaSum(o, n) == WordSum(n) - WordSum(o) + 65535 * (|o| / 2)
  {
    if o != [] {
      DeltaSumIsDifference(o[2..], n[2..]);
    }
  }

  lemma {:induction false} DeltaSumBound(o: seq<byte>, n: seq<byte>)
    requires |o| == |n|
    ensures DeltaSum(o, n) <= 65535 * |o|
  {
    if |o| >= 2 {
      DeltaSumBound(o[2..], n[2..]);
    }
  }

  /** The buffer with the bytes from `at` on replaced by n. */
  function Patched(data: seq<byte>, at: nat, n: seq<byte>): (r: seq<byte>)
    requires at + |n| <= |data|
    ensures |r| == |data|
  {
    data[..at] + n + data[at + |n|..]
  }

  lemma PatchedSum(data: seq<byte>, at: nat, n: seq<byte>)
    requires at + |n| <= |data| && at % 2 == 0 && |n| % 2 == 0
    ensures WordSum(Patched(data, at, n)) == WordSum(data) - WordSum(data[at..at + |n|]) + WordSum(n)
  {
    hide WordSum, Patched;
    SplitAround(data, at, |n|);
    PatchedSplit(data, at, n);
    SumOfThree(data[..at], data[at..at + |n|], data[at + |n|..]);
    SumOfThree(data[..at], n, data[at + |n|..]);
  }

  lemma SplitAround(data: seq<byte>, at: nat, k: nat)
    requires at + k <= |data|
    ensures data == data[..at] + (data[at..at + k] + data[at + k..])
  {
  }

  lemma PatchedSplit(data: seq<byte>, at: nat, n: seq<byte>)
    requires at + |n| <= |data|
    ensures Patched(data, at, n) == data[..at] + (n + data[at + |n|..])
  {
  }

  lemma SumOfThree(head: seq<byte>, mid: seq<byte>, rest: seq<byte>)
    requires |head| % 2 == 0 && |mid| % 2 == 0
    ensures WordSum(head + (mid + rest)) == WordSum(head) + WordSum(mid) + WordSum(rest)
  {
    hide WordSum;
    WordSumAppend(head, mid + rest);
    WordSumAppend(mid, rest);
  }

  /** Updating incrementally is recomputing, except exactly when the patched data is all zero:
      then the update yields 0x0000 where recomputation yields 0xFFFF. */
  lemma IncrementalUpdateIsExact(data: seq<byte>, at: nat, n: seq<byte>)
    requires Words16(data) <= MAX_WORDS
    requires at + |n| <= |data| && at % 2 == 0 && |n| % 2 == 0 && 0 < |n| <= 65536
    ensures
      var updated := UpdatedN(RfcChecksum(data), data[at..at + |n|], n);
      var recomputed := RfcChecksum(Patched(data, at, n));
      && (updated == recomputed <==> !AllZero(Patched(data, at, n)))
      && (AllZero(Patched(data, at, n)) ==> updated == 0 && recomputed == 65535)
  {
    var o, d' := data[at..at + |n|], Patched(data, at, n);
    DeltaSumIsDifference(o, n);
    UpdatedNWithoutWrap(RfcChecksum(data), o, n);
    PatchedSum(data, at, n);
    WordSumZero(d');
    UpdateSumIsPositive(data, at, n);
    UpdateArithmetic(WordSum(data), WordSum(d'), |n| / 2, DeltaSum(o, n));
  }

  /** The arithmetic of an update that takes a sum from s to t. */
  lemma UpdateArithmetic(s: nat, t: nat, words: nat, delta: nat)
    requires delta == t - s + 65535 * words && Ones(s) + delta > 0
    ensures Ones(Ones(s) + delta) == if t > 0 then Ones(t) else 65535
  {
    var k := OnesRemainder(s);
    var u := Ones(s) + delta;
    assert u == t + 65535 * (words - k);
    if t == 0 {
      OnesOfMore(65535, words - k - 1);
    } else if words >= k {
      OnesOfMore(t, words - k);
    } else {
      OnesOfMore(u, k - words);
    }
  }

  lemma UpdateSumIsPositive(data: seq<byte>, at: nat, n: seq<byte>)
    requires at + |n| <= |data| && at % 2 == 0 && |n| % 2 == 0 && 0 < |n|
    ensures Ones(WordSum(data)) + DeltaSum(data[at..at + |n|], n) > 0
  {
    var o := data[at..at + |n|];
    if AllZero(data) {
      assert AllZero(o) && o[0] == 0 && o[1] == 0;
      assert DeltaSum(o, n) >= 65535;
    } else {
      WordSumZero(data);
    }
  }

  /** Replacing word after word with the one-word update. */
  function Iterated(oldCheck: u16, o: seq<byte>, n: seq<byte>): u16
    requires |o| == |n|
    decreases |o|
  {
    if |o| < 2 then oldCheck
    else Iterated(Updated(oldCheck, Word(o[0], o[1]), Word(n[0], n[1])), o[2..], n[2..])
  }

  lemma OnesOfSmall(x: nat)
    requires x <= 65535
    ensures Ones(x) == x
  {
  }

  lemma UpdatedNWithoutWrap(oldCheck: u16, o: seq<byte>, n: seq<byte>)
    requires |o| == |n| <= 65536
    ensures UpdatedN(oldCheck, o, n) == 65535 - Ones(65535 - oldCheck + DeltaSum(o, n))
  {
    DeltaSumBound(o, n);
  }

  /** The n-byte update is the iterated one-word update, for every old checksum. */
  lemma {:induction false} UpdateNIsIterated(oldCheck: u16, o: seq<byte>, n: seq<byte>)
    requires |o| == |n| <= 65536
    ensures Iterated(oldCheck, o, n) == UpdatedN(oldCheck, o, n)
    decreases |o|
  {
    hide Ones, Word, UpdatedN;
    UpdatedNWithoutWrap(oldCheck, o, n);
    OnesOfSmall(65535 - oldCheck);
    if |o| >= 2 {
      var x := (65535 - oldCheck) + (65535 - Word(o[0], o[1])) + Word(n[0], n[1]);
      UpdateNIsIterated(65535 - Ones(x), o[2..], n[2..]);
      UpdatedNWithoutWrap(65535 - Ones(x), o[2..], n[2..]);
      AddToOnes(x, DeltaSum(o[2..], n[2..]));
    }
  }

  lemma AddToOnes(x: nat, y: nat)
    ensures Ones(Ones(x) + y) == Ones(x + y)
  {
    var q := OnesRemainder(x);
    if x > 0 {
      assert x + y == (Ones(x) + y) + 65535 * q;
      OnesOfMore(Ones(x) + y, q);
    }
  }

  /** A buffer whose checksum word holds the checksum of the rest sums to all ones: the receiver
      recomputes 0. */
  lemma StoredChecksumVerifies(data: seq<byte>, at: nat)
    requires at % 2 == 0 && at + 2 <= |data| && data[at] == 0 && data[at + 1] == 0
    ensures
      var c := RfcChecksum(data);
      RfcChecksum(Patched(data, at, [c / 256, c % 256])) == 0
  {
    var c := RfcChecksum(data);
    hide WordSum, Patched, Ones, Word;
    PatchedSum(data, at, [c / 256, c % 256]);
    assert data[at..at + 2] == [0, 0];
    OneWordSum(0, 0);
    OneWordSum(c / 256, c % 256);
    WordOfHalves(c);
    ComplementMakesOnes(WordSum(data));
  }

  lemma OneWordSum(hi: byte, lo: byte)
    ensures WordSum([hi, lo]) == Word(hi, lo) && Word(0, 0) == 0
  {
    assert [hi, lo][2..] == [];
  }

  lemma WordOfHalves(c: u16)
    ensures Word(c / 256, c % 256) == c
  {
  }

  lemma ComplementMakesOnes(s: nat)
    ensures Ones(s + (65535 - Ones(s))) == 65535
  {
    var q := OnesRemainder(s);
    assert s + (65535 - Ones(s)) == 65535 + 65535 * q;
    OnesOfMore(65535, q);
  }

  /** MAX_WORDS is tight: one word more, all ones, and the 32-bit sum wraps to a wrong checksum. */
  lemma OneWordMoreWraps(data: seq<byte>)
    requires |data| == 2 * (MAX_WORDS + 1) && forall i :: 0 <= i < |data| ==> data[i] == 255
    ensures 65535 - Ones(WordSum(data) % TWO_32) != RfcChecksum(data)
  {
    AllOnesSum(data);
    assert WordSum(data) == TWO_32 - 1 + 65535;
    OnesOfMore(65535, MAX_WORDS);
  }

  lemma {:induction false} AllOnesSum(data: seq<byte>)
    requires |data| % 2 == 0 && forall i :: 0 <= i < |data| ==> data[i] == 255
    ensures WordSum(data) == 65535 * (|data| / 2)
  {
    if data != [] {
      AllOnesSum(data[2..]);
    }
  }
}
