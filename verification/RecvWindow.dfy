/** The receive window: a flat buffer filled at its end and compacted when the application reads. */
module RecvWindow {
  import opened Words

  datatype Receiver = Receiver(buffered: seq<byte>, capacity: nat, rcvNxt: u32)

  predicate Fits(r: Receiver) {
    |r.buffered| <= r.capacity
  }

  /** How many of n arriving bytes are taken. */
  function Taken(r: Receiver, k: u32, n: nat): nat
    requires Fits(r)
  {
    if k == r.rcvNxt then Min(n, r.capacity - |r.buffered|) else 0
  }

  function Received(r: Receiver, k: u32, data: seq<byte>): (t: Receiver)
    requires Fits(r)
    ensures Fits(t)
  {
    var n := Taken(r, k, |data|);
    r.(buffered := r.buffered + data[..n], rcvNxt := Low32(r.rcvNxt + n))
  }

  function Read(r: Receiver, max: nat): (p: (Receiver, seq<byte>))
    requires Fits(r)
    ensures Fits(p.0) && |p.1| == Min(|r.buffered|, max) && p.1 + p.0.buffered == r.buffered
    ensures p.0.rcvNxt == r.rcvNxt && p.0.capacity == r.capacity
  {
    var n := Min(|r.buffered|, max);
    (r.(buffered := r.buffered[n..]), r.buffered[..n])
  }

  /** The window put on the wire: 32 bits of the free space. */
  function Advertised(r: Receiver): u32
    requires Fits(r)
  {
    Low32(r.capacity - |r.buffered|)
  }

  class RecvWindow {
    const buffer: array<byte>
    var used: nat
    var rcvNxt: u32

    predicate Valid()
      reads this
    {
      used <= buffer.Length
    }

    function View(): Receiver
      requires Valid()
      reads this, buffer
    {
      Receiver(buffer[..used], buffer.Length, rcvNxt)
    }

    constructor (capacity: nat)
      ensures Valid() && fresh(buffer) && View() == Receiver([], capacity, 0)
    {
      buffer := new byte[capacity](_ => 0);
      used, rcvNxt := 0, 0;
    }

    method AdvertisedWindow() returns (r: u32)
      requires Valid()
      ensures r == Advertised(View())
    {
      WrapIsModular(0, 0, buffer.Length - used);
      r := (buffer.Length - used) % TWO_32;
    }

    method IsZero() returns (zero: bool)
      requires Valid()
      ensures zero <==> |View().buffered| == View().capacity
    {
      zero := buffer.Length - used == 0;
    }

    /** -1 for bytes that are not the next ones, otherwise how many were taken. */
    method Receive(k: u32, data: seq<byte>) returns (r: int)
      requires Valid()
      modifies this`used, this`rcvNxt, buffer
      ensures Valid() && View() == Received(old(View()), k, data)
      ensures r == if k == old(rcvNxt) then Taken(old(View()), k, |data|) else -1
    {
      if k != rcvNxt {
        return -1;
      }
      if |data| == 0 {
        return 0;
      }
      var space := buffer.Length - used;
      if space == 0 {
        return 0;
      }
      var accept := if |data| < space then |data| else space;
      forall i | 0 <= i < accept {
        buffer[used + i] := data[i];
      }
      assert buffer[..used + accept] == old(buffer[..used]) + data[..accept];
      used := used + accept;
      WrapIsModular(0, 0, rcvNxt + accept);
      rcvNxt := (rcvNxt + accept) % TWO_32;
      r := accept;
    }

    method ReadInto(out: array<byte>, max: nat) returns (toRead: nat)
      requires Valid() && out != buffer && max <= out.Length
      modifies this`used, buffer, out
      ensures Valid() && toRead <= max
      ensures (View(), out[..toRead]) == Read(old(View()), max)
      ensures out[toRead..] == old(out[..])[toRead..]
    {
      toRead := if used < max then used else max;
      if toRead == 0 {
        assert buffer[..used][0..] == buffer[..used];
        return;
      }
      forall i | 0 <= i < toRead {
        out[i] := buffer[i];
      }
      var remaining := used - toRead;
      if remaining > 0 {
        forall i | 0 <= i < remaining {
          buffer[i] := buffer[toRead + i];
        }
      }
      assert buffer[..remaining] == old(buffer[..used])[toRead..];
      assert out[..toRead] == old(buffer[..used])[..toRead];
      used := remaining;
    }
  }

  /** Bytes that are the next ones are all taken if they fit, and otherwise as far as they fit. */
  lemma TakesWhatFits(r: Receiver, data: seq<byte>)
    requires Fits(r) && |data| <= r.capacity - |r.buffered|
    ensures Received(r, r.rcvNxt, data) == Receiver(r.buffered + data, r.capacity, Low32(r.rcvNxt + |data|))
  {
    hide Low32;
    assert data[..|data|] == data;
  }

  lemma FillsUp(r: Receiver, data: seq<byte>)
    requires Fits(r) && |data| > r.capacity - |r.buffered|
    ensures var n := r.capacity - |r.buffered|;
            Received(r, r.rcvNxt, data) == Receiver(r.buffered + data[..n], r.capacity, Low32(r.rcvNxt + n))
  {
    hide Low32;
  }

  lemma OthersAreNotTaken(r: Receiver, k: u32, data: seq<byte>)
    requires Fits(r) && k != r.rcvNxt
    ensures Received(r, k, data) == r
  {
    assert r.buffered + data[..0] == r.buffered;
  }

  /** The advertised window is the free space exactly when that fits 32 bits; a window of
      a multiple of 2^32 bytes looks closed. */
  lemma AdvertisedIsFreeSpace(r: Receiver)
    requires Fits(r)
    ensures Advertised(r) == r.capacity - |r.buffered| <==> r.capacity - |r.buffered| < TWO_32
  {
  }
}
