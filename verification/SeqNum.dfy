/** TCP sequence numbers: counters without bound, seen through 32 bits
    (section 3.4 of RFC 9293). */
module SeqNum {
  import opened Words

  /** The cast from uint32_t to int32_t. */
  function Signed(x: u32): (r: int)
    ensures -TWO_31 <= r < TWO_31
  {
    if x < TWO_31 then x else x - TWO_32
  }

  function Diff(a: u32, b: u32): int {
    Signed(Sub32(a, b))
  }

  predicate SeqLt(a: u32, b: u32) { Diff(a, b) < 0 }

  predicate SeqLe(a: u32, b: u32) { Diff(a, b) <= 0 }

  predicate SeqGt(a: u32, b: u32) { Diff(a, b) > 0 }

  predicate SeqGe(a: u32, b: u32) { Diff(a, b) >= 0 }

  predicate SeqBetween(x: u32, lo: u32, hi: u32) { SeqGe(x, lo) && SeqLe(x, hi) }

  function SeqAdd(a: u32, delta: u32): u32 { Add32(a, delta) }

  predicate SeqInWindow(x: u32, start: u32, size: u32) {
    if size == 0 then false else Sub32(x, start) < size
  }

  // ---------------------------------------------------------------- unbounded counters

  /** What 32 bits show of an unbounded counter. */
  function Wire(n: int): u32 { n % TWO_32 }

  lemma SubWire(a: int, b: int)
    ensures Sub32(Wire(a), Wire(b)) == Wire(a - b)
  {
    var q := a / TWO_32 - b / TWO_32;
    assert a - b == q * TWO_32 + (Wire(a) - Wire(b));
  }

  lemma AddWire(a: int, delta: u32)
    ensures SeqAdd(Wire(a), delta) == Wire(a + delta)
  {
    assert a + delta == a / TWO_32 * TWO_32 + (Wire(a) + delta);
  }

  lemma WireNear(d: int)
    requires -TWO_32 < d < TWO_32
    ensures Wire(d) == if d >= 0 then d else d + TWO_32
  {
  }

  /** Less than half the circle apart; of two points exactly opposite, the earlier one counts first. */
  predicate Near(a: int, b: int) { -TWO_31 <= a - b < TWO_31 }

  lemma DiffIsExact(a: int, b: int)
    ensures Diff(Wire(a), Wire(b)) == a - b <==> Near(a, b)
  {
    SubWire(a, b);
    if Near(a, b) {
      WireNear(a - b);
    }
  }

  /** Of counters less than a full circle apart, each comparison tells the true order
      exactly when they are less than half a circle apart. */
  lemma OrderIsExact(a: int, b: int)
    requires -TWO_32 < a - b < TWO_32
    ensures (SeqLt(Wire(a), Wire(b)) <==> a < b) <==> Near(a, b)
    ensures (SeqLe(Wire(a), Wire(b)) <==> a <= b) <==> Near(a, b)
    ensures (SeqGt(Wire(a), Wire(b)) <==> a > b) <==> Near(a, b)
    ensures (SeqGe(Wire(a), Wire(b)) <==> a >= b) <==> Near(a, b)
  {
    SubWire(a, b);
    WireNear(a - b);
  }

  lemma BetweenIsExact(x: int, lo: int, hi: int)
    requires Near(x, lo) && Near(x, hi)
    ensures SeqBetween(Wire(x), Wire(lo), Wire(hi)) <==> lo <= x <= hi
  {
    DiffIsExact(x, lo);
    DiffIsExact(x, hi);
  }

  /** Within a circle on either side of its start, a window is recognised exactly when
      the number is not so old that it falls into the window one lap earlier. */
  lemma InWindowIsExact(x: int, start: int, size: u32)
    requires -TWO_32 < x - start < TWO_32
    ensures (SeqInWindow(Wire(x), Wire(start), size) <==> start <= x < start + size)
       <==> !(x < start && start - x > TWO_32 - size)
  {
    SubWire(x, start);
    WireNear(x - start);
  }

  /** "Before" is a strict order on any set of numbers within half a circle, and never a total one:
      exactly opposite numbers are each before the other. */
  lemma BeforeIsAnOrder(a: u32, b: u32)
    ensures SeqLt(a, b) && SeqLt(b, a) <==> a - b == TWO_31 || b - a == TWO_31
    ensures !SeqLt(a, b) && !SeqLt(b, a) <==> a == b
  {
  }

  lemma BeforeIsTransitive(a: int, b: int, c: int)
    requires SeqLt(Wire(a), Wire(b)) && SeqLt(Wire(b), Wire(c))
    requires Near(a, b) && Near(b, c)
    ensures SeqLt(Wire(a), Wire(c)) <==> Near(a, c)
  {
    DiffIsExact(a, b);
    DiffIsExact(b, c);
    if a - c > -TWO_32 {
      OrderIsExact(a, c);
    } else {
      SubWire(a, c);
    }
  }
}
