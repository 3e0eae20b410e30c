/** Division of polynomials over GF(2), one bit at a time. A polynomial is the sequence of its
    coefficients, highest power first. A generator of degree n is x^n plus a tail of n coefficients. */
module PolyDivision {

  type Poly = seq<bool>

  function Zeros(n: nat): (z: Poly)
    ensures |z| == n && forall i {:trigger z[i]} :: 0 <= i < n ==> !z[i]
  {
    seq(n, _ => false)
  }

  function Xor(a: Poly, b: Poly): (c: Poly)
    requires |a| == |b|
    ensures |c| == |a| && forall i {:trigger c[i]} :: 0 <= i < |a| ==> c[i] == (a[i] != b[i])
  {
    seq(|a|, i requires 0 <= i < |a| => a[i] != b[i])
  }

  lemma XorSelf(a: Poly)
    ensures Xor(a, a) == Zeros(|a|)
  {
  }

  lemma XorZeros(a: Poly)
    ensures Xor(Zeros(|a|), a) == a
  {
  }

  lemma XorIsZero(a: Poly, b: Poly)
    requires |a| == |b|
    ensures Xor(a, b) == Zeros(|a|) <==> a == b
  {
    hide Xor, Zeros;
    XorSelf(a);
    if Xor(a, b) == Zeros(|a|) {
      forall i | 0 <= i < |a| ensures a[i] == b[i] {
        assert Xor(a, b)[i] == Zeros(|a|)[i];
      }
    }
  }

  // ---------------------------------------------------------------- schoolbook division

  /** The dividend without its leading coefficient, the generator subtracted if that coefficient was 1. */
  function Cancelled(dividend: Poly, tail: Poly): (rest: Poly)
    requires |tail| < |dividend|
    ensures |rest| == |dividend| - 1
  {
    if dividend[0] then Xor(dividend[1..|tail| + 1], tail) + dividend[|tail| + 1..] else dividend[1..]
  }

  /** The remainder of long division: cancel leading coefficients until fewer than the degree remain. */
  function Remainder(dividend: Poly, tail: Poly): (r: Poly)
    requires |tail| <= |dividend|
    ensures |r| == |tail|
    decreases |dividend|
  {
    if |dividend| == |tail| then dividend else Remainder(Cancelled(dividend, tail), tail)
  }

  function Quotient(dividend: Poly, tail: Poly): (q: Poly)
    requires |tail| <= |dividend|
    ensures |q| == |dividend| - |tail|
    decreases |dividend|
  {
    if |dividend| == |tail| then [] else [dividend[0]] + Quotient(Cancelled(dividend, tail), tail)
  }

  /** The product of q with the generator of that tail. */
  function Product(q: Poly, tail: Poly): (p: Poly)
    ensures |p| == |q| + |tail|
  {
    if q == [] then Zeros(|tail|)
    else
      var lead := (if q[0] then [true] + tail else Zeros(|tail| + 1)) + Zeros(|q| - 1);
      Xor(lead, [false] + Product(q[1..], tail))
  }

  lemma CancelledAt(dividend: Poly, tail: Poly, i: nat)
    requires |tail| < |dividend| && i + 1 < |dividend|
    ensures Cancelled(dividend, tail)[i] == (dividend[i + 1] != (dividend[0] && i < |tail| && tail[i]))
  {
  }

  lemma LeadAt(lead: bool, tail: Poly, k: nat, i: nat)
    requires i < |tail| + 1 + k
    ensures ((if lead then [true] + tail else Zeros(|tail| + 1)) + Zeros(k))[i]
         == (lead && (i == 0 || (i <= |tail| && tail[i - 1])))
  {
  }

  lemma PadAt(k: nat, low: Poly, i: nat)
    requires i < k + |low|
    ensures (Zeros(k) + low)[i] == (i >= k && low[i - k])
  {
  }

  /** Dividend = quotient * generator + remainder. */
  lemma {:induction false} DivisionIdentity(dividend: Poly, tail: Poly)
    requires |tail| <= |dividend|
    ensures dividend == Xor(Product(Quotient(dividend, tail), tail),
                            Zeros(|dividend| - |tail|) + Remainder(dividend, tail))
    decreases |dividend|
  {
    hide Xor, Zeros, Cancelled;
    var n, k := |tail|, |dividend| - |tail|;
    if k == 0 {
      forall i | 0 <= i < n ensures dividend[i] == Xor(Zeros(n), Zeros(0) + dividend)[i] {
        PadAt(0, dividend, i);
      }
      assert dividend == Xor(Zeros(n), Zeros(0) + dividend);
    } else {
      var rest := Cancelled(dividend, tail);
      DivisionIdentity(rest, tail);
      DivisionStep(dividend, tail, Quotient(rest, tail), Remainder(rest, tail));
    }
  }

  lemma ProductAt(lead: bool, q: Poly, tail: Poly, i: nat)
    requires i < |q| + 1 + |tail|
    ensures Product([lead] + q, tail)[i]
         == ((lead && (i == 0 || (i <= |tail| && tail[i - 1]))) != (i > 0 && Product(q, tail)[i - 1]))
  {
    hide Xor, Zeros;
    assert ([lead] + q)[1..] == q;
    LeadAt(lead, tail, |q|, i);
  }

  lemma DivisionStepAt(dividend: Poly, tail: Poly, q: Poly, r: Poly, i: nat)
    requires |tail| < |dividend| && |q| == |dividend| - |tail| - 1 && |r| == |tail|
    requires Cancelled(dividend, tail) == Xor(Product(q, tail), Zeros(|q|) + r)
    requires i < |dividend|
    ensures dividend[i] == (Product([dividend[0]] + q, tail)[i] != (Zeros(|q| + 1) + r)[i])
  {
    hide Xor, Zeros, Cancelled, Product;
    ProductAt(dividend[0], q, tail, i);
    PadAt(|q| + 1, r, i);
    if i > 0 {
      PadAt(|q|, r, i - 1);
      CancelledAt(dividend, tail, i - 1);
    }
  }

  lemma DivisionStep(dividend: Poly, tail: Poly, q: Poly, r: Poly)
    requires |tail| < |dividend| && |q| == |dividend| - |tail| - 1 && |r| == |tail|
    requires Cancelled(dividend, tail) == Xor(Product(q, tail), Zeros(|q|) + r)
    ensures dividend == Xor(Product([dividend[0]] + q, tail), Zeros(|q| + 1) + r)
  {
    hide Xor, Zeros, Cancelled, Product;
    var total := Xor(Product([dividend[0]] + q, tail), Zeros(|q| + 1) + r);
    forall i | 0 <= i < |dividend| ensures dividend[i] == total[i] {
      DivisionStepAt(dividend, tail, q, r, i);
    }
  }

  /** A multiple of the generator plus something shorter. */
  function Combined(q: Poly, r: Poly, tail: Poly): (p: Poly)
    requires |r| == |tail|
    ensures |p| == |q| + |tail|
  {
    Xor(Product(q, tail), Zeros(|q|) + r)
  }

  lemma CombinedAt(lead: bool, q: Poly, r: Poly, tail: Poly, i: nat)
    requires |r| == |tail| && i < |q| + 1 + |tail|
    ensures Combined([lead] + q, r, tail)[i]
         == ((lead && (i == 0 || (i <= |tail| && tail[i - 1]))) != (i > 0 && Combined(q, r, tail)[i - 1]))
  {
    hide Zeros, Product;
    ProductAt(lead, q, tail, i);
    PadAt(|q| + 1, r, i);
    if i > 0 {
      PadAt(|q|, r, i - 1);
    }
  }

  lemma CancelsOneMultiple(lead: bool, q: Poly, r: Poly, tail: Poly)
    requires |r| == |tail|
    ensures var p := Combined([lead] + q, r, tail);
            p[0] == lead && Cancelled(p, tail) == Combined(q, r, tail)
  {
    hide Cancelled, Combined;
    var p := Combined([lead] + q, r, tail);
    CombinedAt(lead, q, r, tail, 0);
    forall i | 0 <= i < |q| + |tail| ensures Cancelled(p, tail)[i] == Combined(q, r, tail)[i] {
      CancelledAt(p, tail, i);
      CombinedAt(lead, q, r, tail, i + 1);
    }
  }

  /** Quotient and remainder are the only ones: whatever is a multiple of the generator plus r,
      with r shorter than the generator, has that quotient and remainder r. */
  lemma {:induction false} RemainderIsUnique(q: Poly, r: Poly, tail: Poly)
    requires |r| == |tail|
    ensures var dividend := Xor(Product(q, tail), Zeros(|q|) + r);
            Quotient(dividend, tail) == q && Remainder(dividend, tail) == r
    decreases |q|
  {
    hide Cancelled, Xor, Zeros, Product;
    var p := Combined(q, r, tail);
    if q == [] {
      JustTheRemainder(r, tail);
    } else {
      assert [q[0]] + q[1..] == q;
      CancelsOneMultiple(q[0], q[1..], r, tail);
      RemainderIsUnique(q[1..], r, tail);
    }
  }

  lemma JustTheRemainder(r: Poly, tail: Poly)
    requires |r| == |tail|
    ensures Combined([], r, tail) == r
  {
    forall i | 0 <= i < |r| ensures Combined([], r, tail)[i] == r[i] {
      PadAt(0, r, i);
    }
  }

  // ---------------------------------------------------------------- the shift register

  /** One step of the bit-serial register: shift, and subtract the generator when the outgoing
      coefficient and the incoming bit differ. */
  function Step(r: Poly, bit: bool, tail: Poly): (r': Poly)
    requires |r| == |tail| > 0
    ensures |r'| == |r|
  {
    var shifted := r[1..] + [false];
    if r[0] != bit then Xor(shifted, tail) else shifted
  }

  function Run(r: Poly, bits: Poly, tail: Poly): (r': Poly)
    requires |r| == |tail| > 0
    ensures |r'| == |r|
    decreases |bits|
  {
    if bits == [] then r else Run(Step(r, bits[0], tail), bits[1..], tail)
  }

  /** The message shifted up by the degree of the generator, the register's start added on top. */
  function Dividend(r: Poly, bits: Poly): (d: Poly)
    ensures |d| == |r| + |bits|
  {
    Xor(r + Zeros(|bits|), bits + Zeros(|r|))
  }

  lemma DividendAt(r: Poly, bits: Poly, i: nat)
    requires i < |r| + |bits|
    ensures Dividend(r, bits)[i] == ((i < |r| && r[i]) != (i < |bits| && bits[i]))
  {
  }

  lemma StepAt(r: Poly, bit: bool, tail: Poly, i: nat)
    requires |r| == |tail| && i < |r|
    ensures Step(r, bit, tail)[i] == ((i + 1 < |r| && r[i + 1]) != (r[0] != bit && tail[i]))
  {
  }

  /** One step of the register is one cancellation of the division. */
  lemma DividendStep(r: Poly, bits: Poly, tail: Poly)
    requires |r| == |tail| > 0 && bits != []
    ensures Dividend(Step(r, bits[0], tail), bits[1..]) == Cancelled(Dividend(r, bits), tail)
  {
    hide Dividend, Step, Cancelled;
    var d, r' := Dividend(r, bits), Step(r, bits[0], tail);
    DividendAt(r, bits, 0);
    forall i | 0 <= i < |r| + |bits| - 1
      ensures Dividend(r', bits[1..])[i] == Cancelled(d, tail)[i]
    {
      DividendAt(r', bits[1..], i);
      DividendAt(r, bits, i + 1);
      CancelledAt(d, tail, i);
      if i < |r| {
        StepAt(r, bits[0], tail, i);
      }
    }
  }

  /** The register ends with the remainder of the whole message. */
  lemma {:induction false} RunIsRemainder(r: Poly, bits: Poly, tail: Poly)
    requires |r| == |tail| > 0
    ensures Run(r, bits, tail) == Remainder(Dividend(r, bits), tail)
    decreases |bits|
  {
    hide Dividend, Step, Cancelled;
    if bits == [] {
      forall i | 0 <= i < |r| ensures Dividend(r, bits)[i] == r[i] {
        DividendAt(r, bits, i);
      }
      assert Dividend(r, bits) == r;
    } else {
      DividendStep(r, bits, tail);
      RunIsRemainder(Step(r, bits[0], tail), bits[1..], tail);
    }
  }

  // ---------------------------------------------------------------- linearity

  lemma {:induction false} RunAppend(r: Poly, a: Poly, b: Poly, tail: Poly)
    requires |r| == |tail| > 0
    ensures Run(r, a + b, tail) == Run(Run(r, a, tail), b, tail)
    decreases |a|
  {
    if a == [] {
      assert a + b == b;
    } else {
      assert (a + b)[1..] == a[1..] + b;
      RunAppend(Step(r, a[0], tail), a[1..], b, tail);
    }
  }

  lemma StepLinear(r: Poly, s: Poly, b: bool, c: bool, tail: Poly)
    requires |r| == |s| == |tail| > 0
    ensures Step(Xor(r, s), b != c, tail) == Xor(Step(r, b, tail), Step(s, c, tail))
  {
  }

  lemma {:induction false} RunLinear(r: Poly, s: Poly, a: Poly, b: Poly, tail: Poly)
    requires |r| == |s| == |tail| > 0 && |a| == |b|
    ensures Run(Xor(r, s), Xor(a, b), tail) == Xor(Run(r, a, tail), Run(s, b, tail))
    decreases |a|
  {
    if a != [] {
      StepLinear(r, s, a[0], b[0], tail);
      RunLinear(Step(r, a[0], tail), Step(s, b[0], tail), a[1..], b[1..], tail);
      assert Xor(a, b)[1..] == Xor(a[1..], b[1..]);
    }
  }

  lemma PadRightAt(high: Poly, k: nat, i: nat)
    requires i < |high| + k
    ensures (high + Zeros(k))[i] == (i < |high| && high[i])
  {
  }

  lemma AbsorbStep(r: Poly, bits: Poly, tail: Poly)
    requires 0 < |bits| <= |r| == |tail|
    ensures Step(Xor(r, bits + Zeros(|r| - |bits|)), false, tail)
         == Xor(Step(r, bits[0], tail), bits[1..] + Zeros(|r| - |bits| + 1))
  {
    hide Step, Xor, Zeros;
    var n, k := |r|, |bits|;
    var s := Xor(r, bits + Zeros(n - k));
    var r' := Step(r, bits[0], tail);
    PadRightAt(bits, n - k, 0);
    forall i | 0 <= i < n
      ensures Step(s, false, tail)[i] == Xor(r', bits[1..] + Zeros(n - k + 1))[i]
    {
      StepAt(s, false, tail, i);
      StepAt(r, bits[0], tail, i);
      PadRightAt(bits[1..], n - k + 1, i);
      if i + 1 < n {
        PadRightAt(bits, n - k, i + 1);
      }
    }
  }

  /** Up to n message bits may be added to the register beforehand, and then zeros shifted in. */
  lemma {:induction false} RunAbsorbs(r: Poly, bits: Poly, tail: Poly)
    requires |bits| <= |r| == |tail| && |tail| > 0
    ensures Run(r, bits, tail) == Run(Xor(r, bits + Zeros(|r| - |bits|)), Zeros(|bits|), tail)
    decreases |bits|
  {
    hide Step, Xor, Zeros;
    if bits == [] {
      XorZeros(r);
      assert bits + Zeros(|r|) == Zeros(|r|);
      assert Xor(r, Zeros(|r|)) == Xor(Zeros(|r|), r);
    } else {
      AbsorbStep(r, bits, tail);
      RunAbsorbs(Step(r, bits[0], tail), bits[1..], tail);
      assert Zeros(|bits|)[1..] == Zeros(|bits| - 1);
    }
  }

  /** Coefficients that are not shifted out just move up. */
  lemma {:induction false} RunShifts(low: Poly, k: nat, tail: Poly)
    requires k + |low| == |tail| > 0
    ensures Run(Zeros(k) + low, Zeros(k), tail) == low + Zeros(k)
    decreases k
  {
    if k == 0 {
      assert Zeros(0) + low == low + Zeros(0);
    } else {
      var r := Zeros(k) + low;
      assert Step(r, false, tail) == Zeros(k - 1) + (low + [false]);
      assert Zeros(k)[1..] == Zeros(k - 1);
      RunShifts(low + [false], k - 1, tail);
      assert (low + [false]) + Zeros(k - 1) == low + Zeros(k);
    }
  }

  lemma SplitSum(r: Poly, bits: Poly)
    requires |bits| <= |r|
    ensures Xor(r, bits + Zeros(|r| - |bits|))
         == Xor(Zeros(|bits|) + r[|bits|..], Xor(r[..|bits|], bits) + Zeros(|r| - |bits|))
  {
    hide Xor, Zeros;
    var k := |bits|;
    var top, low := Xor(r[..k], bits) + Zeros(|r| - k), Zeros(k) + r[k..];
    forall i | 0 <= i < |r| ensures Xor(r, bits + Zeros(|r| - k))[i] == Xor(low, top)[i] {
      PadAt(k, r[k..], i);
      if i < k {
        assert top[i] == (r[..k][i] != bits[i]);
      } else {
        assert !top[i];
      }
    }
  }

  lemma LinearZeros(r: Poly, s: Poly, k: nat, tail: Poly)
    requires |r| == |s| == |tail| > 0
    ensures Run(Xor(r, s), Zeros(k), tail) == Xor(Run(r, Zeros(k), tail), Run(s, Zeros(k), tail))
  {
    hide Run, Step, Xor, Zeros;
    XorSelf(Zeros(k));
    RunLinear(r, s, Zeros(k), Zeros(k), tail);
  }

  /** The identity behind table-driven CRCs: the top k coefficients and the k incoming bits act
      only through their sum, everything below just moves up. */
  lemma TableStep(r: Poly, bits: Poly, tail: Poly)
    requires |bits| <= |r| == |tail| && |tail| > 0
    ensures
      var k := |bits|;
      Run(r, bits, tail)
      == Xor(r[k..] + Zeros(k), Run(Xor(r[..k], bits) + Zeros(|r| - k), Zeros(k), tail))
  {
    hide Run, Step, Xor, Zeros;
    var k, n := |bits|, |r|;
    var top, low := Xor(r[..k], bits) + Zeros(n - k), Zeros(k) + r[k..];
    RunAbsorbs(r, bits, tail);
    SplitSum(r, bits);
    LinearZeros(low, top, k, tail);
    RunShifts(r[k..], k, tail);
  }

  // ---------------------------------------------------------------- burst errors

  lemma {:induction false} ZeroStaysZero(n: nat, k: nat, tail: Poly)
    requires n == |tail| > 0
    ensures Run(Zeros(n), Zeros(k), tail) == Zeros(n)
  {
    if k > 0 {
      assert Step(Zeros(n), false, tail) == Zeros(n);
      assert Zeros(k)[1..] == Zeros(k - 1);
      ZeroStaysZero(n, k - 1, tail);
    }
  }

  /** With constant coefficient 1 the generator never divides a power of x times something smaller. */
  lemma {:induction false} NonzeroStaysNonzero(r: Poly, k: nat, tail: Poly)
    requires |r| == |tail| > 0 && tail[|tail| - 1] && r != Zeros(|r|)
    ensures Run(r, Zeros(k), tail) != Zeros(|r|)
    decreases k
  {
    if k > 0 {
      var r' := Step(r, false, tail);
      assert r' != Zeros(|r|) by {
        if r[0] {
          assert r'[|r| - 1];
        } else {
          var i :| 0 <= i < |r| && r[i];
          assert r'[i - 1];
        }
      }
      assert Zeros(k)[1..] == Zeros(k - 1);
      NonzeroStaysNonzero(r', k - 1, tail);
    }
  }

  /** The difference of two registers is the register of the difference. */
  lemma RunDifference(r: Poly, a: Poly, b: Poly, tail: Poly)
    requires |r| == |tail| > 0 && |a| == |b|
    ensures Run(r, a, tail) == Run(r, b, tail) <==> Run(Zeros(|r|), Xor(a, b), tail) == Zeros(|r|)
  {
    hide Run, Step, Xor, Zeros;
    RunLinear(r, r, a, b, tail);
    XorSelf(r);
    XorIsZero(Run(r, a, tail), Run(r, b, tail));
  }

  /** a and b agree outside the `len` positions from w on. */
  ghost predicate DifferOnlyIn(a: Poly, b: Poly, w: nat, len: nat) {
    |a| == |b| && forall i :: 0 <= i < |a| && (i < w || w + len <= i) ==> a[i] == b[i]
  }

  lemma PaddedBurst(e: Poly, w: nat, end: nat)
    requires w <= end <= |e|
    requires forall i :: 0 <= i < |e| && (i < w || end <= i) ==> !e[i]
    ensures e == Zeros(w) + (e[w..end] + Zeros(|e| - end))
  {
    hide Zeros;
    var m := e[w..end] + Zeros(|e| - end);
    forall i | 0 <= i < |e| ensures e[i] == (Zeros(w) + m)[i] {
      PadAt(w, m, i);
    }
  }

  ghost predicate ZeroOutside(e: Poly, w: nat, len: nat) {
    forall i :: 0 <= i < |e| && (i < w || w + len <= i) ==> !e[i]
  }

  lemma DifferenceIsZeroOutside(a: Poly, b: Poly, w: nat, len: nat)
    requires |a| == |b| && DifferOnlyIn(a, b, w, len)
    ensures ZeroOutside(Xor(a, b), w, len)
  {
    hide Xor;
  }

  lemma BurstDecomposition(e: Poly, w: nat, len: nat, tail: Poly)
    requires |tail| > 0 && w <= |e| && ZeroOutside(e, w, len)
    ensures
      var end := if w + len <= |e| then w + len else |e|;
      Run(Zeros(|tail|), e, tail) == Run(Run(Zeros(|tail|), e[w..end], tail), Zeros(|e| - end), tail)
  {
    hide Run, Step;
    var end := if w + len <= |e| then w + len else |e|;
    assert e == Zeros(w) + (e[w..end] + Zeros(|e| - end)) by {
      PaddedBurst(e, w, end);
    }
    RunAppend(Zeros(|tail|), Zeros(w), e[w..end] + Zeros(|e| - end), tail);
    RunAppend(Zeros(|tail|), e[w..end], Zeros(|e| - end), tail);
    ZeroStaysZero(|tail|, w, tail);
  }

  /** Messages that differ, and only inside n consecutive bits, never leave the same register. */
  lemma BurstDetected(r: Poly, a: Poly, b: Poly, w: nat, tail: Poly)
    requires |r| == |tail| > 0 && tail[|tail| - 1]
    requires w <= |a| && DifferOnlyIn(a, b, w, |tail|) && a != b
    ensures Run(r, a, tail) != Run(r, b, tail)
  {
    hide Run, Step, Xor, Zeros, DifferOnlyIn, ZeroOutside;
    SameLength(a, b, w, |tail|);
    var e := Xor(a, b);
    RunDifference(r, a, b, tail);
    DifferenceIsZeroOutside(a, b, w, |tail|);
    var i := SomeOne(a, b, w, |tail|);
    BurstLeavesOnes(e, w, i, tail);
  }

  lemma SameLength(a: Poly, b: Poly, w: nat, len: nat)
    requires DifferOnlyIn(a, b, w, len)
    ensures |a| == |b|
  {
  }

  lemma SomeOne(a: Poly, b: Poly, w: nat, len: nat) returns (i: nat)
    requires DifferOnlyIn(a, b, w, len) && a != b
    ensures w <= i < w + len && i < |a| && Xor(a, b)[i]
  {
    i :| 0 <= i < |a| && a[i] != b[i];
  }

  lemma BurstLeavesOnes(e: Poly, w: nat, i: nat, tail: Poly)
    requires |tail| > 0 && tail[|tail| - 1] && w <= i < w + |tail| && i < |e| && e[i]
    requires ZeroOutside(e, w, |tail|)
    ensures Run(Zeros(|tail|), e, tail) != Zeros(|tail|)
  {
    hide Run, Step, Xor, Zeros, ZeroOutside;
    var n := |tail|;
    BurstDecomposition(e, w, n, tail);
    var end := if w + n <= |e| then w + n else |e|;
    var burst := e[w..end];
    var padded := burst + Zeros(n - |burst|);
    assert padded[i - w];
    RunAbsorbs(Zeros(n), burst, tail);
    XorZeros(padded);
    NonzeroStaysNonzero(padded, |burst|, tail);
    NonzeroStaysNonzero(Run(padded, Zeros(|burst|), tail), |e| - end, tail);
  }

  lemma FirstOne(rest: Poly, tail: Poly)
    requires |tail| > 0
    ensures Run(Zeros(|tail|), [true] + rest, tail) == Run(tail, rest, tail)
  {
    assert Step(Zeros(|tail|), true, tail) == tail;
    assert ([true] + rest)[1..] == rest;
  }

  /** What n further bits make of a register that holds the generator's tail. */
  lemma TailCancelsOnlyItself(rest: Poly, tail: Poly, k: nat)
    requires |rest| == |tail| > 0 && tail[|tail| - 1]
    ensures Run(Run(tail, rest, tail), Zeros(k), tail) == Zeros(|tail|) <==> rest == tail
  {
    hide Run, Step, Xor, Zeros;
    var n, s := |tail|, Xor(tail, rest);
    assert rest + Zeros(0) == rest;
    RunAbsorbs(tail, rest, tail);
    XorIsZero(tail, rest);
    if rest == tail {
      ZeroStaysZero(n, n, tail);
      ZeroStaysZero(n, k, tail);
    } else {
      NonzeroStaysNonzero(s, n, tail);
      NonzeroStaysNonzero(Run(s, Zeros(n), tail), k, tail);
    }
  }

  lemma BurstStartingWithOne(r: Poly, a: Poly, b: Poly, w: nat, tail: Poly, rest: Poly)
    requires |r| == |rest| == |tail| > 0 && tail[|tail| - 1]
    requires w + |tail| + 1 <= |a| && DifferOnlyIn(a, b, w, |tail| + 1)
    requires Xor(a, b)[w..w + |tail| + 1] == [true] + rest
    ensures Run(r, a, tail) == Run(r, b, tail) <==> rest == tail
  {
    hide Run, Step, Xor, Zeros, DifferOnlyIn, ZeroOutside;
    SameLength(a, b, w, |tail| + 1);
    var n, e := |tail|, Xor(a, b);
    RunDifference(r, a, b, tail);
    DifferenceIsZeroOutside(a, b, w, n + 1);
    BurstDecomposition(e, w, n + 1, tail);
    FirstOne(rest, tail);
    TailCancelsOnlyItself(rest, tail, |e| - (w + n + 1));
  }

  /** The bound is sharp: a difference inside n + 1 consecutive bits is missed exactly when it is the
      generator itself. */
  lemma LongerBurst(r: Poly, a: Poly, b: Poly, w: nat, tail: Poly)
    requires |r| == |tail| > 0 && tail[|tail| - 1]
    requires w + |tail| + 1 <= |a| && DifferOnlyIn(a, b, w, |tail| + 1) && a != b
    ensures Run(r, a, tail) == Run(r, b, tail) <==> Xor(a, b)[w..w + |tail| + 1] == [true] + tail
  {
    hide Run, Step, Xor, Zeros, DifferOnlyIn;
    SameLength(a, b, w, |tail| + 1);
    var n, burst := |tail|, Xor(a, b)[w..w + |tail| + 1];
    assert burst[0] == (a[w] != b[w]);
    if burst[0] {
      var rest := burst[1..];
      assert burst == [true] + rest;
      assert ([true] + tail)[1..] == tail;
      BurstStartingWithOne(r, a, b, w, tail, rest);
    } else {
      ShorterBurst(a, b, w, n);
      BurstDetected(r, a, b, w + 1, tail);
      assert ([true] + tail)[0];
    }
  }

  lemma ShorterBurst(a: Poly, b: Poly, w: nat, n: nat)
    requires w < |a| == |b| && DifferOnlyIn(a, b, w, n + 1) && a[w] == b[w]
    ensures DifferOnlyIn(a, b, w + 1, n)
  {
  }
}
