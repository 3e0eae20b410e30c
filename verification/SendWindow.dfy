/** The sender's sliding window over a ring buffer. */
module SendWindow {
  import opened Words

  datatype Sender = Sender(base: u32, next: u32, window: u32, ring: seq<byte>)

  /** The ring slot of a sequence number: going round the ring, k % cap. */
  function Slot(k: nat, cap: nat): (i: nat)
    requires cap > 0
    ensures i < cap
  {
    if k < cap then k else Slot(k - cap, cap)
  }

  lemma {:induction false} SlotIsRemainder(k: nat, cap: nat)
    requires cap > 0
    ensures Slot(k, cap) == k % cap
  {
    if k < cap {
      ModUnique(k, 0, k, cap);
    } else {
      SlotIsRemainder(k - cap, cap);
      var q, r := (k - cap) / cap, (k - cap) % cap;
      assert (q + 1) * cap == q * cap + cap;
      ModUnique(k, q + 1, r, cap);
    }
  }

  /** i is the slot of one of the numbers from..upto. */
  ghost predicate IsSlotOf(i: nat, cap: nat, from: nat, upto: nat)
    requires cap > 0
  {
    exists k: nat :: from <= k < upto && Slot(k, cap) == i
  }

  function InFlight(s: Sender): u32 {
    Sub32(s.next, s.base)
  }

  predicate CanSend(s: Sender) {
    InFlight(s) < s.window
  }

  /** The buffer must be at least as large as the window. */
  predicate Roomy(s: Sender) {
    s.window <= |s.ring|
  }

  function Pushed(s: Sender, b: byte): Sender
    requires Roomy(s)
  {
    if CanSend(s) then s.(next := Add32(s.next, 1), ring := s.ring[Slot(s.next, |s.ring|) := b]) else s
  }

  predicate Accepts(s: Sender, ack: u32) {
    s.base <= ack <= s.next
  }

  function Acked(s: Sender, ack: u32): Sender {
    if Accepts(s, ack) then s.(base := ack) else s
  }

  /** How many bytes can be handed out in one piece from k on. */
  function ChunkLength(cap: nat, next: nat, k: nat): nat
    requires cap > 0 && k <= next
  {
    Min(cap - Slot(k, cap), next - k)
  }

  /** The bytes `nfs_send_window_get_data` points at; None for its NULL. */
  function Chunk(s: Sender, k: u32): Option<seq<byte>>
    requires |s.ring| > 0
  {
    if k < s.base || k >= s.next then None
    else Some(s.ring[Slot(k, |s.ring|)..Slot(k, |s.ring|) + ChunkLength(|s.ring|, s.next, k)])
  }

  class SendWindow {
    var base: u32
    var nextSeq: u32
    const windowSize: u32
    const buffer: array<byte>
    const acked: array<bool>

    function View(): Sender
      reads this, buffer
    {
      Sender(base, nextSeq, windowSize, buffer[..])
    }

    predicate Valid()
      reads this
    {
      windowSize <= buffer.Length == acked.Length
    }

    constructor (isn: u32, winSize: u32, bufCap: nat)
      requires winSize <= bufCap
      ensures Valid() && fresh(buffer) && fresh(acked)
      ensures buffer.Length == bufCap && windowSize == winSize && base == nextSeq == isn
    {
      base, nextSeq, windowSize := isn, isn, winSize;
      buffer := new byte[bufCap](_ => 0);
      acked := new bool[bufCap](_ => false);
    }

    method Send(b: byte) returns (ok: bool)
      requires Valid()
      modifies this, buffer, acked
      ensures Valid() && ok == old(CanSend(View())) && View() == Pushed(old(View()), b)
      ensures acked[..] == if ok then old(acked[..])[Slot(old(nextSeq), acked.Length) := false] else old(acked[..])
    {
      hide Slot;
      if Sub32(nextSeq, base) >= windowSize {
        return false;
      }
      var idx := nextSeq % buffer.Length;
      SlotIsRemainder(nextSeq, buffer.Length);
      buffer[idx] := b;
      acked[idx] := false;
      nextSeq := Add32(nextSeq, 1);
      return true;
    }

    /** -1 for an acknowledgement outside base..nextSeq, otherwise how many bytes it newly covers;
        exactly their slots are marked. */
    method Ack(ackNum: u32) returns (r: int)
      requires Valid() && (buffer.Length > 0 || base == nextSeq)
      modifies this, acked
      ensures Valid() && View() == Acked(old(View()), ackNum)
      ensures r == if old(Accepts(View(), ackNum)) then ackNum - old(base) else -1
      ensures forall i :: 0 <= i < acked.Length ==>
        (acked[i] <==> old(acked[i]) || IsSlotOf(i, acked.Length, old(base), base))
    {
      hide Slot, IsSlotOf;
      NoSlots(acked.Length, base);
      if ackNum < base || ackNum > nextSeq {
        return -1;
      }
      r := ackNum - base;
      var k := base;
      while k < ackNum
        modifies acked
        invariant base <= k <= ackNum && buffer[..] == old(buffer[..])
        invariant forall i :: 0 <= i < acked.Length ==>
          (acked[i] <==> old(acked[i]) || IsSlotOf(i, acked.Length, base, k))
      {
        var idx := k % buffer.Length;
        SlotIsRemainder(k, buffer.Length);
        forall i | 0 <= i < acked.Length
          ensures IsSlotOf(i, acked.Length, base, k + 1) <==> IsSlotOf(i, acked.Length, base, k) || i == idx
        {
          NextSlot(i, acked.Length, base, k);
        }
        acked[idx] := true;
        k := k + 1;
      }
      base := ackNum;
    }

    /** Where the bytes from `seq` on lie in the ring, and how many in one piece; length 0 when `k`
        is not in flight. */
    method GetData(k: u32) returns (idx: nat, length: nat)
      requires Valid() && buffer.Length > 0
      ensures idx + length <= buffer.Length
      ensures Chunk(View(), k) == if length == 0 then None else Some(buffer[idx..idx + length])
    {
      hide Slot;
      if k < base || k >= nextSeq {
        return 0, 0;
      }
      idx := k % buffer.Length;
      SlotIsRemainder(k, buffer.Length);
      var toEndOfBuf := buffer.Length - idx;
      var toEndOfFlight := nextSeq - k;
      length := if toEndOfBuf < toEndOfFlight then toEndOfBuf else toEndOfFlight;
    }
  }

  lemma NoSlots(cap: nat, from: nat)
    ensures cap > 0 ==> forall i: nat :: !IsSlotOf(i, cap, from, from)
  {
  }

  lemma NextSlot(i: nat, cap: nat, from: nat, upto: nat)
    requires cap > 0 && from <= upto
    ensures IsSlotOf(i, cap, from, upto + 1) <==> IsSlotOf(i, cap, from, upto) || i == Slot(upto, cap)
  {
    hide Slot;
    if k: nat :| from <= k < upto + 1 && Slot(k, cap) == i {
      assert k == upto || k < upto;
    }
  }

  // ---------------------------------------------------------------- the ring

  lemma MulStep(p: nat, q: nat, cap: nat)
    ensures p > q ==> p * cap >= q * cap + cap
  {
    if p > q {
      assert p * cap == q * cap + (p - q) * cap;
      assert (p - q) * cap == cap + (p - q - 1) * cap;
    }
  }

  lemma ModUnique(x: nat, q: nat, r: nat, cap: nat)
    requires r < cap && x == q * cap + r
    ensures x % cap == r
  {
    MulStep(x / cap, q, cap);
    MulStep(q, x / cap, cap);
  }

  /** Fewer than cap apart, sequence numbers have slots of their own. */
  lemma {:induction false} SlotsDiffer(j: nat, k: nat, cap: nat)
    requires j < k < j + cap
    ensures Slot(j, cap) != Slot(k, cap)
  {
    if j >= cap {
      SlotsDiffer(j - cap, k - cap, cap);
    }
  }

  /** Up to the end of the ring, consecutive numbers lie next to each other; then comes slot 0. */
  lemma {:induction false} SlotsRun(k: nat, i: nat, cap: nat)
    requires cap > 0 && i <= cap - Slot(k, cap)
    ensures Slot(k + i, cap) == if Slot(k, cap) + i == cap then 0 else Slot(k, cap) + i
  {
    if k >= cap {
      SlotsRun(k - cap, i, cap);
    }
  }

  /** The ring still holds every byte in flight: the counters have not wrapped, no more than the
      window is out, and `sent` is everything pushed since the first number, start. */
  predicate Holds(s: Sender, start: nat, sent: seq<byte>) {
    && Roomy(s)
    && start <= s.base <= s.next <= s.base + s.window
    && s.next == start + |sent|
    && forall k: nat :: s.base <= k < s.next ==> s.ring[Slot(k, |s.ring|)] == sent[k - start]
  }

  lemma PushKeepsHolds(s: Sender, start: nat, sent: seq<byte>, b: byte)
    requires Holds(s, start, sent) && s.next < TWO_32 - 1
    ensures Holds(Pushed(s, b), start, if CanSend(s) then sent + [b] else sent)
  {
    hide Slot;
    if CanSend(s) {
      var t := Pushed(s, b);
      forall k: nat | s.base <= k < t.next
        ensures t.ring[Slot(k, |t.ring|)] == (sent + [b])[k - start]
      {
        if k < s.next {
          SlotsDiffer(k, s.next, |s.ring|);
        }
      }
    }
  }

  lemma AckKeepsHolds(s: Sender, start: nat, sent: seq<byte>, ack: u32)
    requires Holds(s, start, sent)
    ensures Holds(Acked(s, ack), start, sent)
  {
    hide Slot;
  }

  /** A window in order sends exactly while less than the window is in flight, and takes the byte. */
  lemma SendsWhileThereIsRoom(s: Sender, start: nat, sent: seq<byte>, b: byte)
    requires Holds(s, start, sent) && s.next < TWO_32 - 1
    ensures CanSend(s) <==> s.next - s.base < s.window
    ensures s.next - s.base < s.window ==> Pushed(s, b).next == s.next + 1 && Pushed(s, b).base == s.base
    ensures s.next - s.base >= s.window ==> Pushed(s, b) == s
  {
    hide Slot;
  }

  /** Every acknowledgement from base to next moves the base to it, and no other changes anything. */
  lemma AckMovesBaseToIt(s: Sender, start: nat, sent: seq<byte>, ack: u32)
    requires Holds(s, start, sent)
    ensures Acked(s, ack) == if s.base <= ack <= s.next then s.(base := ack) else s
    ensures s.base <= ack <= s.next ==> InFlight(Acked(s, ack)) == s.next - ack
  {
    hide Slot;
  }

  /** A chunk handed out for retransmission is a nonempty piece of what was sent at that place. */
  lemma ChunkIsWhatWasSent(s: Sender, start: nat, sent: seq<byte>, k: u32)
    requires Holds(s, start, sent) && |s.ring| > 0
    ensures Chunk(s, k).Some? <==> s.base <= k < s.next
    ensures Chunk(s, k).Some? ==>
      var n := |Chunk(s, k).value|;
      0 < n <= s.next - k && Chunk(s, k).value == sent[k - start..k - start + n]
  {
    hide Slot;
    if Chunk(s, k).Some? {
      var piece, cap := Chunk(s, k).value, |s.ring|;
      forall i | 0 <= i < |piece| ensures piece[i] == sent[k - start..k - start + |piece|][i] {
        SlotsRun(k, i, cap);
        assert piece[i] == s.ring[Slot(k, cap) + i] == s.ring[Slot(k + i, cap)];
      }
    }
  }

  /** Everything in flight from k on can be fetched in at most two pieces. */
  lemma TwoChunksCoverTheFlight(cap: nat, next: nat, k: nat)
    requires cap > 0 && k <= next <= k + cap
    ensures var first := ChunkLength(cap, next, k);
            k + first + ChunkLength(cap, next, k + first) == next
  {
    hide Slot;
    SlotsRun(k, ChunkLength(cap, next, k), cap);
  }

  // ---------------------------------------------------------------- past 2^32

  /** The counters have wrapped with bytes in flight. */
  predicate Wrapped(s: Sender) {
    s.next < s.base && InFlight(s) <= s.window
  }

  /** A window in order comes out of order at exactly one byte: the one numbered 2^32 - 1. */
  lemma OnlyTheLastNumberWraps(s: Sender, b: byte)
    requires Roomy(s) && s.base <= s.next && CanSend(s)
    ensures Wrapped(Pushed(s, b)) <==> s.next == TWO_32 - 1
  {
    hide Slot;
  }

  datatype Call = Send(b: byte) | Ack(number: u32)

  function After(s: Sender, c: Call): (t: Sender)
    requires Roomy(s)
    ensures Roomy(t)
  {
    match c
    case Send(b) => Pushed(s, b)
    case Ack(a) => Acked(s, a)
  }

  function AfterAll(s: Sender, cs: seq<Call>): Sender
    requires Roomy(s)
    decreases |cs|
  {
    if cs == [] then s else AfterAll(After(s, cs[0]), cs[1..])
  }

  /** From then on the window is stuck: no call ever moves base again, no acknowledgement is accepted
      and nothing can be fetched, although a window in order always accepts an acknowledgement of next. */
  lemma {:induction false} WrappedForGood(s: Sender, cs: seq<Call>)
    requires Roomy(s) && Wrapped(s)
    ensures var t := AfterAll(s, cs);
            && Wrapped(t) && t.base == s.base && |t.ring| == |s.ring|
            && (forall a: u32 :: !Accepts(t, a))
            && (|t.ring| > 0 ==> forall k: u32 :: Chunk(t, k) == None)
    decreases |cs|
  {
    hide Slot;
    if cs != [] {
      WrappedForGood(After(s, cs[0]), cs[1..]);
    }
  }
}
