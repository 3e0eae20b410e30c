/** CIDR blocks: masks, networks, broadcast addresses, membership and overlap
    (section 5.1 of RFC 4632). */
module Cidr {
  import opened Words
  import opened Bitwise

  function Not32(x: u32): u32 {
    TWO_32 - 1 - x
  }

  function ShiftLeft32(x: u32, n: nat): u32 {
    x * Pow2(n) % TWO_32
  }

  // ---------------------------------------------------------------- the operations

  datatype Block = Block(addr: u32, len: nat)

  function Mask(len: nat): u32
    requires len <= 32
  {
    if len == 0 then 0 else ShiftLeft32(0xFFFF_FFFF, 32 - len)
  }

  function Network(c: Block): nat
    requires c.len <= 32
  {
    And(c.addr, Mask(c.len))
  }

  function Broadcast(c: Block): nat
    requires c.len <= 32
  {
    Or(Network(c), Not32(Mask(c.len)))
  }

  /** Usable host addresses. */
  function HostCount(len: nat): int {
    if len >= 32 then 1
    else if len == 31 then 2
    else if len == 0 then 0xFFFF_FFFE
    else ShiftLeft32(1, 32 - len) - 2
  }

  predicate Contains(net: Block, ip: u32)
    requires net.len <= 32
  {
    And(ip, Mask(net.len)) == And(net.addr, Mask(net.len))
  }

  predicate Overlap(a: Block, b: Block)
    requires a.len <= 32 && b.len <= 32
  {
    var shorter := if a.len < b.len then a.len else b.len;
    And(a.addr, Mask(shorter)) == And(b.addr, Mask(shorter))
  }

  // ---------------------------------------------------------------- masks as arithmetic

  /** x without its k lowest bits. */
  function Top(x: nat, k: nat): nat {
    if k == 0 then x else Top(x / 2, k - 1)
  }

  /** The mask of a prefix length is 2^32 - 2^(32 - len). */
  lemma MaskValue(len: nat)
    requires len <= 32
    ensures Mask(len) == TWO_32 - Pow2(32 - len)
    ensures Pow2(32 - len) <= TWO_32
  {
    hide Pow2;
    Pow2Is32();
    Pow2Mono(32 - len, 32);
    if len > 0 {
      Pow2Mono(32 - len, 31);
      assert Pow2(32) == 2 * Pow2(31) by { Pow2Next(31); }
      ShiftedOnes(Pow2(32 - len));
    }
  }

  lemma ShiftedOnes(p: nat)
    requires 0 < p <= TWO_31
    ensures 0xFFFF_FFFF * p % TWO_32 == TWO_32 - p
  {
    assert 0xFFFF_FFFF * p == TWO_32 * (p - 1) + (TWO_32 - p);
    ModShift(TWO_32 - p, p - 1);
  }

  /** Masking the n low bits with n - k leading ones clears the k lowest. */
  lemma {:induction false} AndMask(x: nat, n: nat, k: nat)
    requires x < Pow2(n) && k <= n
    ensures Pow2(k) <= Pow2(n) && And(x, Pow2(n) - Pow2(k)) == Top(x, k) * Pow2(k)
    decreases n
  {
    hide Pow2, And;
    Pow2Mono(k, n);
    if n == 0 {
      Pow2Next(0);
      AndZero(x);
    } else {
      Pow2Next(n - 1);
      if k > 0 {
        Pow2Next(k - 1);
        AndMask(x / 2, n - 1, k - 1);
        AndEven(x, Pow2(n - 1) - Pow2(k - 1));
        Double(Top(x, k), Pow2(k - 1));
      } else {
        Pow2Next(0);
        AndMask(x / 2, n - 1, 0);
        AndOdd(x, Pow2(n - 1) - 1);
      }
    }
  }

  /** Setting the k bits a multiple of 2^k lacks. */
  lemma {:induction false} OrLow(t: nat, k: nat)
    ensures Or(t * Pow2(k), Pow2(k) - 1) == t * Pow2(k) + Pow2(k) - 1
  {
    hide Pow2, Or;
    if k == 0 {
      Pow2Next(0);
      OrNext(t, 0);
    } else {
      Pow2Next(k - 1);
      OrLow(t, k - 1);
      Double(t, Pow2(k - 1));
      OrNext(t * Pow2(k - 1), Pow2(k - 1) - 1);
    }
  }

  lemma {:induction false} TopIsAnInterval(x: nat, k: nat, t: nat)
    ensures Top(x, k) == t <==> t * Pow2(k) <= x < t * Pow2(k) + Pow2(k)
  {
    if k > 0 {
      TopIsAnInterval(x / 2, k - 1, t);
      Double(t, Pow2(k - 1));
    }
  }

  lemma {:induction false} TopTwice(x: nat, k: nat, m: nat)
    ensures Top(x, k + m) == Top(Top(x, k), m)
  {
    if k > 0 {
      TopTwice(x / 2, k - 1, m);
    }
  }

  lemma SameMultiple(s: nat, t: nat, p: nat)
    requires p > 0
    ensures s * p == t * p <==> s == t
  {
  }

  /** Masking compares the leading bits. */
  lemma MaskComparesTops(x: u32, y: u32, len: nat)
    requires len <= 32
    ensures And(x, Mask(len)) == Top(x, 32 - len) * Pow2(32 - len)
    ensures And(x, Mask(len)) == And(y, Mask(len)) <==> Top(x, 32 - len) == Top(y, 32 - len)
  {
    hide Pow2, And, Top, Mask;
    Pow2Is32();
    MaskValue(len);
    AndMask(x, 32, 32 - len);
    AndMask(y, 32, 32 - len);
    SameMultiple(Top(x, 32 - len), Top(y, 32 - len), Pow2(32 - len));
  }

  // ---------------------------------------------------------------- properties

  lemma Ends(c: Block)
    requires c.len <= 32
    ensures Network(c) == Top(c.addr, 32 - c.len) * Pow2(32 - c.len)
    ensures Broadcast(c) == Network(c) + Pow2(32 - c.len) - 1
  {
    hide Pow2, And, Or, Top, Mask;
    MaskComparesTops(c.addr, c.addr, c.len);
    MaskValue(c.len);
    OrLow(Top(c.addr, 32 - c.len), 32 - c.len);
  }

  /** A block is exactly the range from its network address to its broadcast address. */
  lemma BlockIsARange(net: Block, ip: u32)
    requires net.len <= 32
    ensures Contains(net, ip) <==> Network(net) <= ip <= Broadcast(net)
  {
    hide Pow2, And, Or, Top, Mask;
    Ends(net);
    MaskComparesTops(ip, net.addr, net.len);
    TopIsAnInterval(ip, 32 - net.len, Top(net.addr, 32 - net.len));
  }

  /** The usable hosts are the addresses of the block without its two ends, which only
      a /31 and a /32 keep. */
  lemma HostsAreTheInside(net: Block)
    requires net.len <= 32
    ensures HostCount(net.len) == Broadcast(net) - Network(net) + (if net.len <= 30 then -1 else 1)
  {
    hide Pow2, And, Or, Top, Mask, Network, Broadcast;
    Ends(net);
    Pow2Is32();
    Pow2Next(0);
    if 0 < net.len <= 30 {
      Pow2Mono(32 - net.len, 31);
      Pow2Next(31);
    }
  }

  /** Addresses that agree on a longer prefix agree on every shorter one. */
  lemma PrefixesNest(x: u32, y: u32, short: nat, long: nat)
    requires short <= long <= 32 && And(x, Mask(long)) == And(y, Mask(long))
    ensures And(x, Mask(short)) == And(y, Mask(short))
  {
    hide Pow2, And, Top, Mask;
    MaskComparesTops(x, y, long);
    MaskComparesTops(x, y, short);
    TopTwice(x, 32 - long, long - short);
    TopTwice(y, 32 - long, long - short);
  }

  /** Two blocks overlap exactly when they share an address. */
  lemma OverlapIsSharing(a: Block, b: Block)
    requires a.len <= 32 && b.len <= 32
    ensures Overlap(a, b) <==> exists ip: u32 :: Contains(a, ip) && Contains(b, ip)
  {
    hide And, Mask;
    if Overlap(a, b) {
      var ip := if a.len < b.len then b.addr else a.addr;
      assert Contains(a, ip) && Contains(b, ip);
    }
    if ip: u32 :| Contains(a, ip) && Contains(b, ip) {
      SharedMeansOverlap(a, b, ip);
    }
  }

  lemma SharedMeansOverlap(a: Block, b: Block, ip: u32)
    requires a.len <= 32 && b.len <= 32
    requires Contains(a, ip) && Contains(b, ip)
    ensures Overlap(a, b)
  {
    hide And, Mask;
    if a.len < b.len {
      PrefixesNest(ip, b.addr, a.len, b.len);
    } else {
      PrefixesNest(ip, a.addr, b.len, a.len);
    }
  }

  /** Blocks overlap exactly when the one with the longer prefix lies inside the other. */
  lemma OverlapIsNesting(a: Block, b: Block)
    requires a.len <= b.len <= 32
    ensures Overlap(a, b) <==> forall ip: u32 :: Contains(b, ip) ==> Contains(a, ip)
  {
    hide And, Mask;
    assert Contains(b, b.addr);
    if Overlap(a, b) {
      forall ip: u32 | Contains(b, ip) ensures Contains(a, ip) {
        PrefixesNest(ip, b.addr, a.len, b.len);
      }
    } else if Contains(a, b.addr) {
      SharedMeansOverlap(a, b, b.addr);
    }
  }
}
