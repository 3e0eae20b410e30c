/** The two endpoints of the reliable-data-transfer lesson: a Go-Back-N sender that
    buffers segments and slides a window over them, and an in-order receiver. */
module Rdt {
  import opened Words

  const MAX_DATA := 1024
  const MAX_SEGS := 256
  const RECV_BUF := 65536

  /** `data` holds the first `data_len` payload bytes. */
  datatype Segment = Segment(seqNo: u32, data: seq<byte>, acked: bool)

  // ---------------------------------------------------------------- sender values

  /** What the sender's fields mean: `segments` is the used part of the segment array. */
  datatype SenderState = SenderState(segments: seq<Segment>, base: nat, windowSize: u32, retransmits: u32)

  /** The sender's invariant: numbering follows the array, exactly the segments below
      `base` are acknowledged, and the window is respected. */
  ghost predicate WellFormed(s: SenderState) {
    && 1 <= s.windowSize
    && s.base <= |s.segments| <= MAX_SEGS
    && |s.segments| <= s.base + s.windowSize
    && forall i :: 0 <= i < |s.segments| ==>
         && s.segments[i].seqNo == i
         && (s.segments[i].acked <==> i < s.base)
         && 0 < |s.segments[i].data| <= MAX_DATA
  }

  function InitSender(windowSize: u32): SenderState {
    SenderState([], 0, if windowSize > 0 then windowSize else 1, 0)
  }

  predicate CanSend(s: SenderState, data: seq<byte>) {
    0 < |data| <= MAX_DATA && |s.segments| - s.base < s.windowSize && |s.segments| < MAX_SEGS
  }

  function Sent(s: SenderState, data: seq<byte>): SenderState
    requires |s.segments| < MAX_SEGS
  {
    s.(segments := s.segments + [Segment(|s.segments|, data, false)])
  }

  /** A cumulative acknowledgement moves `base` to `ackNum`, but never back and never past the end. */
  function AckedBase(s: SenderState, ackNum: u32): (base: nat)
    requires s.base <= |s.segments|
  {
    Max(s.base, Min(ackNum, |s.segments|))
  }

  function Acked(s: SenderState, ackNum: u32): SenderState
    requires s.base <= |s.segments|
  {
    var base := AckedBase(s, ackNum);
    s.(base := base,
       segments := seq(|s.segments|, i requires 0 <= i < |s.segments| =>
         s.segments[i].(acked := s.segments[i].acked || s.base <= i < base)))
  }

  /** One past the last segment a timeout retransmits; `base + window_size` is a 32-bit sum. */
  function TimeoutEnd(s: SenderState): (end: nat)
    requires s.base <= |s.segments|
    ensures end <= |s.segments|
  {
    Min(Low32(s.base + s.windowSize), |s.segments|)
  }

  function TimeoutCount(s: SenderState): nat
    requires s.base <= |s.segments|
  {
    Max(0, TimeoutEnd(s) - s.base)
  }

  function TimedOut(s: SenderState): SenderState
    requires s.base <= |s.segments|
  {
    s.(retransmits := Low32(s.retransmits + TimeoutCount(s)))
  }

  lemma SenderStepsKeepWellFormed(s: SenderState, data: seq<byte>, ackNum: u32)
    requires WellFormed(s)
    ensures CanSend(s, data) ==> WellFormed(Sent(s, data))
    ensures WellFormed(Acked(s, ackNum))
    ensures WellFormed(TimedOut(s))
    ensures WellFormed(InitSender(s.windowSize))
  {
  }

  /** An acknowledgement of k segments moves the base to k, whatever k in the window; an older one changes
      nothing and one beyond the end moves it to the end. Exactly the segments below are marked, and
      their contents stay. */
  lemma AckMovesBaseToIt(s: SenderState, k: u32)
    requires WellFormed(s)
    ensures var t := Acked(s, k);
            && t.base == (if k < s.base then s.base else if k > |s.segments| then |s.segments| else k)
            && |t.segments| == |s.segments| && t.windowSize == s.windowSize && t.retransmits == s.retransmits
            && forall i :: 0 <= i < |s.segments| ==>
                 && t.segments[i].seqNo == i && t.segments[i].data == s.segments[i].data
                 && (t.segments[i].acked <==> i < t.base)
  {
  }

  /** A timeout retransmits the whole of the flight exactly when the 32-bit sum
      `base + window_size` does not wrap (or nothing is in flight); otherwise it retransmits nothing. */
  lemma TimeoutCoversFlight(s: SenderState)
    requires WellFormed(s)
    ensures TimeoutCount(s) == |s.segments| - s.base <==>
            s.base + s.windowSize < TWO_32 || s.base == |s.segments|
    ensures s.base + s.windowSize >= TWO_32 ==> TimeoutCount(s) == 0
    ensures s.windowSize + MAX_SEGS < TWO_32 ==> TimeoutCount(s) == |s.segments| - s.base
  {
    if s.base + s.windowSize >= TWO_32 {
      assert Low32(s.base + s.windowSize) == s.base + s.windowSize - TWO_32;
    }
  }

  // ---------------------------------------------------------------- receiver values

  /** `stream` is the used part of the reassembly buffer. */
  datatype ReceiverState = ReceiverState(expected: u32, stream: seq<byte>)

  /** The first RECV_BUF bytes: what the reassembly buffer can hold. */
  function Cut(s: seq<byte>): seq<byte> {
    s[..Min(|s|, RECV_BUF)]
  }

  function InitReceiver(): ReceiverState {
    ReceiverState(0, [])
  }

  function Received(r: ReceiverState, seg: Segment): ReceiverState {
    if seg.seqNo == r.expected then
      ReceiverState(Add32(r.expected, 1), Cut(r.stream + seg.data))
    else
      r
  }

  // ---------------------------------------------------------------- the mutable endpoints

  class Sender {
    var segments: array<Segment>
    var count: u32
    var base: u32
    var nextSeq: u32
    var windowSize: u32
    var retransmitCount: u32

    ghost predicate Valid()
      reads this, segments
    {
      && segments.Length == MAX_SEGS
      && count <= MAX_SEGS
      && nextSeq == count
      && WellFormed(State())
    }

    ghost function State(): SenderState
      reads this, segments
    {
      SenderState(if count <= segments.Length then segments[..count] else [], base, windowSize, retransmitCount)
    }

    constructor (window: u32)
      ensures Valid() && fresh(segments)
      ensures State() == InitSender(window)
    {
      segments := new Segment[MAX_SEGS](_ => Segment(0, [], false));
      count, base, nextSeq, retransmitCount := 0, 0, 0, 0;
      windowSize := if window > 0 then window else 1;
    }

    method Send(data: seq<byte>) returns (r: int)
      requires Valid()
      modifies this`count, this`nextSeq, segments
      ensures Valid()
      ensures r == if CanSend(old(State()), data) then |old(State().segments)| else -1
      ensures r >= 0 <==> 1 <= |data| <= 1024 && old(count) - old(base) < windowSize && old(count) < 256
      ensures r >= 0 ==> State() == old(State()).(segments := old(State().segments) + [Segment(r, data, false)])
      ensures State() == if r >= 0 then Sent(old(State()), data) else old(State())
    {
      if |data| == 0 || |data| > MAX_DATA {
        return -1;
      }
      var inFlight := count - base;
      if inFlight >= windowSize {
        return -1;
      }
      if count >= MAX_SEGS {
        return -1;
      }
      segments[count] := Segment(nextSeq, data, false);
      r := nextSeq;
      nextSeq := nextSeq + 1;
      count := count + 1;
    }

    method Ack(ackNum: u32) returns (newlyAcked: nat)
      requires Valid()
      modifies this`base, segments
      ensures Valid()
      ensures State() == Acked(old(State()), ackNum)
      ensures newlyAcked == State().base - old(State().base)
    {
      newlyAcked := 0;
      while base < count
        invariant old(base) <= base <= count
        invariant base <= old(base) || base <= ackNum
        invariant newlyAcked == base - old(base)
        invariant forall i :: 0 <= i < MAX_SEGS ==>
          segments[i] == old(segments[i]).(acked := old(segments[i]).acked || old(base) <= i < base)
        decreases count - base
      {
        if segments[base].seqNo < ackNum {
          if !segments[base].acked {
            segments[base] := segments[base].(acked := true);
            newlyAcked := newlyAcked + 1;
          }
          base := base + 1;
        } else {
          break;
        }
      }
    }

    method Timeout() returns (retransmitted: nat)
      requires Valid()
      modifies this`retransmitCount
      ensures Valid()
      ensures State() == TimedOut(old(State()))
      ensures retransmitted == TimeoutCount(old(State()))
      ensures retransmitCount == Low32(old(retransmitCount) + retransmitted)
    {
      retransmitted := 0;
      var end := Add32(base, windowSize);
      if end > count {
        end := count;
      }
      var i := base;
      while i < end
        invariant base <= i <= Max(base, end)
        invariant retransmitted == i - base
        invariant retransmitCount == Low32(old(retransmitCount) + retransmitted)
      {
        if !segments[i].acked {
          retransmitted := retransmitted + 1;
          retransmitCount := Add32(retransmitCount, 1);
        }
        i := i + 1;
      }
    }
  }

  class Receiver {
    var expectedSeq: u32
    var recvBuf: array<byte>
    var recvLen: nat

    ghost predicate Valid()
      reads this, recvBuf
    {
      recvBuf.Length == RECV_BUF && recvLen <= RECV_BUF
    }

    ghost function State(): ReceiverState
      requires Valid()
      reads this, recvBuf
    {
      ReceiverState(expectedSeq, recvBuf[..recvLen])
    }

    constructor ()
      ensures Valid() && fresh(recvBuf)
      ensures State() == InitReceiver()
    {
      recvBuf := new byte[RECV_BUF](_ => 0);
      expectedSeq, recvLen := 0, 0;
    }

    /** Returns whether the segment was accepted, and the acknowledgement to send back. */
    method Receive(seg: Segment) returns (accepted: bool, ackOut: u32)
      requires Valid()
      modifies this`expectedSeq, this`recvLen, recvBuf
      ensures Valid()
      ensures State() == Received(old(State()), seg)
      ensures accepted <==> seg.seqNo == old(expectedSeq)
      ensures ackOut == State().expected
    {
      if seg.seqNo == expectedSeq {
        var space := RECV_BUF - recvLen;
        var toCopy := if |seg.data| < space then |seg.data| else space;
        if toCopy > 0 {
          forall k | 0 <= k < toCopy {
            recvBuf[recvLen + k] := seg.data[k];
          }
          recvLen := recvLen + toCopy;
        }
        expectedSeq := Add32(expectedSeq, 1);
        assert recvBuf[..recvLen] == Cut(old(recvBuf[..recvLen]) + seg.data);
        return true, expectedSeq;
      }
      return false, expectedSeq;
    }
  }
}
