/** C's bitwise operators on natural numbers, bit by bit, and bit strings. */
module Bitwise {
  import opened Words

  function Pow2(n: nat): (p: nat)
    ensures p > 0
  {
    if n == 0 then 1 else 2 * Pow2(n - 1)
  }

  function And(x: nat, y: nat): nat {
    if x == 0 || y == 0 then 0
    else 2 * And(x / 2, y / 2) + if x % 2 == 1 && y % 2 == 1 then 1 else 0
  }

  function Or(x: nat, y: nat): nat
    decreases x + y
  {
    if x == 0 then y
    else if y == 0 then x
    else 2 * Or(x / 2, y / 2) + if x % 2 == 1 || y % 2 == 1 then 1 else 0
  }

  lemma Pow2Mono(m: nat, n: nat)
    requires m <= n
    ensures Pow2(m) <= Pow2(n)
  {
  }

  lemma Pow2Next(n: nat)
    ensures Pow2(n + 1) == 2 * Pow2(n) && Pow2(0) == 1
  {
  }

  lemma Double(t: nat, p: nat)
    ensures t * (2 * p) == 2 * (t * p) == (2 * t) * p
  {
  }

  lemma {:induction false} Pow2Adds(m: nat, n: nat)
    ensures Pow2(m + n) == Pow2(m) * Pow2(n)
  {
    hide Pow2;
    if m == 0 {
      Pow2Next(0);
    } else {
      Pow2Adds(m - 1, n);
      Pow2Next(m - 1);
      Pow2Next(m - 1 + n);
      Double(Pow2(m - 1), Pow2(n));
    }
  }

  lemma Pow2Is32()
    ensures Pow2(32) == TWO_32
  {
    hide Pow2;
    Pow2Next(0);
    Pow2Adds(1, 1);
    Pow2Adds(2, 2);
    Pow2Adds(4, 4);
    Pow2Adds(8, 8);
    Pow2Adds(16, 16);
  }

  lemma AndEven(x: nat, y: nat)
    ensures And(x, 2 * y) == 2 * And(x / 2, y)
  {
    if x > 0 && y > 0 {
      AndUnfolds(x, 2 * y, y);
    }
  }

  lemma AndUnfolds(x: nat, z: nat, half: nat)
    requires x > 0 && z > 0 && half == z / 2
    ensures And(x, z) == 2 * And(x / 2, half) + if x % 2 == 1 && z % 2 == 1 then 1 else 0
  {
  }

  lemma AndOdd(x: nat, y: nat)
    ensures And(x, 2 * y + 1) == 2 * And(x / 2, y) + x % 2
  {
  }

  lemma AndZero(x: nat)
    ensures And(x, 0) == 0
  {
  }

  lemma OrNext(x: nat, y: nat)
    ensures Or(2 * x, 2 * y + 1) == 2 * Or(x, y) + 1
    ensures Or(x, 0) == x
  {
  }

  /** A string of n ones. */
  function Ones(n: nat): (s: seq<bool>)
    ensures |s| == n
  {
    seq(n, _ => true)
  }

  // ---------------------------------------------------------------- single bits

  predicate Bit(x: nat, n: nat) {
    if n == 0 then x % 2 == 1 else Bit(x / 2, n - 1)
  }

  /** x & (1 << n) tests bit n. */
  lemma {:induction false} AndTestsBit(x: nat, n: nat)
    ensures And(x, Pow2(n)) != 0 <==> Bit(x, n)
  {
    hide And, Pow2;
    if n == 0 {
      Pow2Next(0);
      AndOdd(x, 0);
      AndZero(x / 2);
    } else {
      Pow2Next(n - 1);
      AndEven(x, Pow2(n - 1));
      AndTestsBit(x / 2, n - 1);
    }
  }

  lemma OrUnfolds(x: nat, y: nat)
    ensures Or(x, y) / 2 == Or(x / 2, y / 2)
    ensures Or(x, y) % 2 == 1 <==> x % 2 == 1 || y % 2 == 1
  {
  }

  lemma {:induction false} BitOfPow2(n: nat, k: nat)
    ensures Bit(Pow2(n), k) <==> k == n
  {
    hide Pow2;
    if n == 0 {
      Pow2Next(0);
      if k > 0 {
        NoBits(k - 1);
      }
    } else {
      Pow2Next(n - 1);
      if k > 0 {
        BitOfPow2(n - 1, k - 1);
      }
    }
  }

  lemma {:induction false} NoBits(k: nat)
    ensures !Bit(0, k)
  {
    if k > 0 {
      NoBits(k - 1);
    }
  }

  lemma {:induction false} BitOfOr(x: nat, y: nat, k: nat)
    ensures Bit(Or(x, y), k) <==> Bit(x, k) || Bit(y, k)
  {
    hide Or;
    OrUnfolds(x, y);
    if k > 0 {
      BitOfOr(x / 2, y / 2, k - 1);
    }
  }
}
