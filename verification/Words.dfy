/** The fixed-width unsigned integers of the C lessons, as ranges of `int`.
    Wrap-around is always written out where the source relies on it. */
module Words {
  const TWO_16: int := 0x1_0000
  const TWO_31: int := 0x8000_0000
  const TWO_32: int := 0x1_0000_0000

  type byte = x: int | 0 <= x < 0x100
  type u16 = x: int | 0 <= x < 0x1_0000
  type u32 = x: int | 0 <= x < 0x1_0000_0000

  datatype Option<+T> = None | Some(value: T)

  function Min(a: int, b: int): int {
    if a <= b then a else b
  }

  function Max(a: int, b: int): int {
    if a >= b then a else b
  }

  /** Unsigned 32-bit addition. */
  function Add32(a: u32, b: u32): u32 {
    if a + b < TWO_32 then a + b else a + b - TWO_32
  }

  /** Unsigned 32-bit subtraction. */
  function Sub32(a: u32, b: u32): u32 {
    if a >= b then a - b else a - b + TWO_32
  }

  /** The low 32 bits of a number of any size. */
  function Low32(x: nat): (r: u32)
    ensures x < TWO_32 ==> r == x
  {
    if x < TWO_32 then x else Low32(x - TWO_32)
  }

  /** The low 16 bits of a number of any size. */
  function Low16(x: nat): (r: u16)
    ensures x < TWO_16 ==> r == x
  {
    if x < TWO_16 then x else Low16(x - TWO_16)
  }

  lemma {:induction false} Low16IsModular(x: nat)
    ensures Low16(x) == x % TWO_16
    decreases x
  {
    if x >= TWO_16 {
      Low16IsModular(x - TWO_16);
    }
  }

  /** The three are arithmetic modulo 2^32. */
  lemma {:induction false} WrapIsModular(a: u32, b: u32, x: nat)
    ensures Add32(a, b) == (a + b) % TWO_32 && Sub32(a, b) == (a - b) % TWO_32
    ensures Low32(x) == x % TWO_32
    decreases x
  {
    if x >= TWO_32 {
      WrapIsModular(a, b, x - TWO_32);
    }
  }

  /** A 32-bit register that has wrapped so far takes one more addition. */
  lemma ModAdd(a: nat, b: nat)
    ensures (a % TWO_32 + b) % TWO_32 == (a + b) % TWO_32
  {
    var q := a / TWO_32;
    assert a + b == (a % TWO_32 + b) + q * TWO_32;
    ModShift(a % TWO_32 + b, q);
  }

  lemma {:induction false} ModShift(a: nat, q: nat)
    ensures (a + q * TWO_32) % TWO_32 == a % TWO_32
    decreases q
  {
    if q > 0 {
      ModShift(a + TWO_32, q - 1);
    }
  }

  lemma MapMinusOne<K, V>(m: map<K, V>, k: K)
    requires k in m
    ensures |m| == |m - {k}| + 1
  {
    assert (m - {k}).Keys == m.Keys - {k};
    assert |m.Keys| == |m| && |(m - {k}).Keys| == |m - {k}|;
  }
}
