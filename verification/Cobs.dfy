/** Consistent Overhead Byte Stuffing: no zero byte on the wire. */
module Cobs {
  import opened Words

  const FULL := 255
  const MAX_RUN := 254

  // ---------------------------------------------------------------- reference encoder

  ghost predicate NoZero(s: seq<byte>) {
    forall i :: 0 <= i < |s| ==> s[i] != 0
  }

  /** A block on the wire: its length code, then its nonzero bytes. */
  function BlockOf(run: seq<byte>): seq<byte>
    requires |run| <= MAX_RUN
  {
    [|run| + 1] + run
  }

  /** The encoding of the bytes still to come when `run` is the block being filled: a zero closes the
      block, and so does the 254th nonzero byte. */
  function Encoded(run: seq<byte>, data: seq<byte>): seq<byte>
    requires |run| < MAX_RUN
    decreases |data|
  {
    if data == [] then BlockOf(run)
    else if data[0] == 0 then BlockOf(run) + Encoded([], data[1..])
    else if |run| + 1 == MAX_RUN then BlockOf(run + [data[0]]) + Encoded([], data[1..])
    else Encoded(run + [data[0]], data[1..])
  }

  // ---------------------------------------------------------------- reference decoder

  /** Reads block after block; a block shorter than 254 stands for a zero behind it unless it ends
      the input. */
  function Decoded(wire: seq<byte>): Option<seq<byte>>
    decreases |wire|
  {
    if wire == [] then Some([])
    else
      var code := wire[0];
      if code == 0 || code > |wire| then None
      else
        var run, rest := wire[1..code], wire[code..];
        if 0 in run then None
        else match Decoded(rest)
          case None => None
          case Some(tail) => Some(run + (if code < FULL && rest != [] then [0] else []) + tail)
  }

  // ---------------------------------------------------------------- properties of the encoding

  lemma {:induction false} EncodedIsNotEmpty(run: seq<byte>, data: seq<byte>)
    requires |run| < MAX_RUN
    ensures |Encoded(run, data)| >= 1
    decreases |data|
  {
    if data != [] && data[0] != 0 && |run| + 1 < MAX_RUN {
      EncodedIsNotEmpty(run + [data[0]], data[1..]);
    }
  }

  /** No byte of an encoding is zero. */
  lemma {:induction false} EncodedHasNoZero(run: seq<byte>, data: seq<byte>)
    requires |run| < MAX_RUN && NoZero(run)
    ensures NoZero(Encoded(run, data))
    decreases |data|
  {
    if data != [] {
      if data[0] == 0 || |run| + 1 == MAX_RUN {
        EncodedHasNoZero([], data[1..]);
      } else {
        EncodedHasNoZero(run + [data[0]], data[1..]);
      }
    }
  }

  /** The overhead is one byte, and one more for each full 254 bytes at the most. */
  lemma {:induction false} EncodedLength(run: seq<byte>, data: seq<byte>)
    requires |run| < MAX_RUN
    ensures |run| + |data| + 1 <= |Encoded(run, data)| <= |run| + |data| + 1 + (|run| + |data|) / MAX_RUN
    decreases |data|
  {
    if data != [] {
      if data[0] == 0 || |run| + 1 == MAX_RUN {
        EncodedLength([], data[1..]);
      } else {
        EncodedLength(run + [data[0]], data[1..]);
      }
    }
  }

  /** Decoding one block in front of a nonempty rest. */
  lemma DecodeBlock(run: seq<byte>, rest: seq<byte>)
    requires |run| <= MAX_RUN && NoZero(run)
    ensures
      Decoded(BlockOf(run) + rest) ==
      match Decoded(rest)
      case None => None
      case Some(tail) => Some(run + (if |run| < MAX_RUN && rest != [] then [0] else []) + tail)
  {
    var wire := BlockOf(run) + rest;
    assert wire[1..|run| + 1] == run && wire[|run| + 1..] == rest;
  }

  lemma DecodesNothing()
    ensures Decoded([]) == Some([])
  {
  }

  /** Decoding an encoding gives back the bytes. */
  lemma {:induction false} DecodedEncoded(run: seq<byte>, data: seq<byte>)
    requires |run| < MAX_RUN && NoZero(run)
    ensures Decoded(Encoded(run, data)) == Some(run + data)
    decreases |data|
  {
    hide Decoded, BlockOf;
    if data == [] {
      DecodesNothing();
      DecodeBlock(run, []);
      assert BlockOf(run) + [] == BlockOf(run);
      assert run + [] + [] == run + data;
    } else if data[0] == 0 {
      DecodedEncoded([], data[1..]);
      EncodedIsNotEmpty([], data[1..]);
      DecodeBlock(run, Encoded([], data[1..]));
      assert run + [0] + ([] + data[1..]) == run + data;
    } else if |run| + 1 == MAX_RUN {
      DecodedEncoded([], data[1..]);
      DecodeBlock(run + [data[0]], Encoded([], data[1..]));
      assert (run + [data[0]]) + [] + ([] + data[1..]) == run + data;
    } else {
      DecodedEncoded(run + [data[0]], data[1..]);
      assert (run + [data[0]]) + data[1..] == run + data;
    }
  }

  /** For every input: no zero on the wire, at most len + 1 + len / 254 bytes, and the round trip. */
  lemma RoundTrip(data: seq<byte>)
    ensures NoZero(Encoded([], data))
    ensures |data| + 1 <= |Encoded([], data)| <= |data| + 1 + |data| / 254
    ensures Decoded(Encoded([], data)) == Some(data)
  {
    EncodedHasNoZero([], data);
    EncodedLength([], data);
    DecodedEncoded([], data);
    assert [] + data == data;
  }

  // ---------------------------------------------------------------- which inputs are canonical

  /** Nonzero bytes just fill the open block, and close it when it becomes full. */
  lemma {:induction false} EncodeThrough(acc: seq<byte>, run: seq<byte>, more: seq<byte>)
    requires |acc| + |run| <= MAX_RUN && |acc| < MAX_RUN && NoZero(run)
    ensures |acc| + |run| < MAX_RUN ==> Encoded(acc, run + more) == Encoded(acc + run, more)
    ensures |acc| + |run| == MAX_RUN ==> Encoded(acc, run + more) == BlockOf(acc + run) + Encoded([], more)
    decreases |run|
  {
    if run == [] {
      assert run + more == more && acc + run == acc;
    } else {
      var all := run + more;
      assert all[0] == run[0] && all[1..] == run[1..] + more;
      assert acc + run == (acc + [run[0]]) + run[1..];
      if |acc| + 1 < MAX_RUN {
        EncodeThrough(acc + [run[0]], run[1..], more);
      } else {
        assert run[1..] == [] && run[1..] + more == more;
        assert acc + run == acc + [run[0]];
      }
    }
  }

  /** What is on the wire: a run of nonzero bytes behind its length plus one, where a zero or the end of the
      input ends the run; and 254 nonzero bytes behind 255, with nothing for a zero. */
  lemma WireForm(run: seq<byte>, more: seq<byte>)
    requires NoZero(run) && |run| <= 254
    ensures |run| < 254 ==> Encoded([], run) == [|run| + 1] + run
    ensures |run| < 254 ==> Encoded([], run + ([0] + more)) == [|run| + 1] + run + Encoded([], more)
    ensures |run| == 254 ==> Encoded([], run + more) == [255] + run + Encoded([], more)
  {
    hide Encoded;
    assert run + [] == run && [] + run == run;
    if |run| < 254 {
      EncodeThrough([], run, []);
      EncodeThrough([], run, [0] + more);
      EncodesZero(run, more);
    } else {
      EncodeThrough([], run, more);
    }
  }

  /** The last block on the wire is a full one. */
  predicate EndsFull(wire: seq<byte>)
    decreases |wire|
  {
    if wire == [] || wire[0] == 0 || wire[0] > |wire| then false
    else if wire[0] == |wire| then wire[0] == FULL
    else EndsFull(wire[wire[0]..])
  }

  /** The decoder accepts more than the encoder produces, by exactly one final empty block: encoding
      what was decoded gives back the input, with that block added if it ends full (or is empty). */
  lemma {:induction false} EncodedDecoded(wire: seq<byte>)
    requires Decoded(wire).Some?
    ensures Encoded([], Decoded(wire).value) == if wire == [] || EndsFull(wire) then wire + [1] else wire
    decreases |wire|
  {
    if wire != [] {
      hide Encoded;
      var code := wire[0];
      var run, rest := wire[1..code], wire[code..];
      var tail := Decoded(rest).value;
      assert wire == BlockOf(run) + rest;
      assert rest == [] ==> wire == BlockOf(run);
      EncodesNothing();
      EncodedDecoded(rest);
      var more := (if code < FULL && rest != [] then [0] else []) + tail;
      assert Decoded(wire).value == run + more;
      EncodeThrough([], run, more);
      assert [] + run == run;
      if |run| < MAX_RUN {
        EncodesZero(run, tail);
      } else {
        assert more == tail;
      }
      assert BlockOf(run) + (rest + [1]) == wire + [1];
    }
  }

  lemma EncodesNothing()
    ensures Encoded([], []) == [1]
  {
  }

  lemma EncodesZero(run: seq<byte>, tail: seq<byte>)
    requires |run| < MAX_RUN
    ensures Encoded(run, [0] + tail) == BlockOf(run) + Encoded([], tail)
    ensures Encoded(run, []) == BlockOf(run)
  {
    assert ([0] + tail)[1..] == tail;
  }

  // ---------------------------------------------------------------- the loops

  /** The buffer holds the closed blocks, room for a code byte, and the open block's bytes. */
  ghost predicate Holds(out: array<byte>, done: seq<byte>, run: seq<byte>)
    reads out
  {
    && |done| <= out.Length
    && out[..|done|] == done
    && (run == [] ||
        (|done| + 1 + |run| <= out.Length && out[|done| + 1..|done| + 1 + |run|] == run))
  }

  method PutByte(out: array<byte>, at: nat, b: byte, ghost done: seq<byte>, ghost run: seq<byte>)
    requires Holds(out, done, run) && at == |done| + 1 + |run| < out.Length
    modifies out
    ensures Holds(out, done, run + [b])
  {
    out[at] := b;
  }

  method PutCode(out: array<byte>, at: nat, code: byte, ghost done: seq<byte>, ghost run: seq<byte>)
    requires Holds(out, done, run) && at == |done| < out.Length && code == |run| + 1
    modifies out
    ensures |run| <= MAX_RUN && Holds(out, done + BlockOf(run), [])
  {
    out[at] := code;
    ghost var block := BlockOf(run);
    assert out[..|done|] == done && out[|done|..|done| + |block|] == block;
  }

  /** Writes the encoding and returns its length, or -1 exactly when the buffer is too small. */
  method Encode(data: seq<byte>, out: array<byte>) returns (r: int)
    modifies out
    ensures r == if |Encoded([], data)| <= out.Length then |Encoded([], data)| else -1
    ensures r >= 0 ==> out[..r] == Encoded([], data)
  {
    hide Holds, Encoded, BlockOf;
    EncodedLength([], data);
    if out.Length < |data| + 1 {
      return -1;
    }
    var codeIdx, writeIdx, code := 0, 1, 1;
    ghost var done: seq<byte>, run: seq<byte> := [], [];
    HoldsNothing(out);
    var i := 0;
    while i < |data|
      invariant 0 <= i <= |data|
      invariant codeIdx == |done| && code == |run| + 1 <= MAX_RUN && writeIdx == codeIdx + code
      invariant done + Encoded(run, data[i..]) == Encoded([], data)
      invariant Holds(out, done, run) || (run == [] && codeIdx >= out.Length)
    {
      EncodeStep(done, run, data, i);
      HoldsBounds(out, done, run);
      if data[i] == 0 {
        if codeIdx >= out.Length || writeIdx > out.Length {
          return -1;
        }
        PutCode(out, codeIdx, code, done, run);
        done := done + BlockOf(run);
        run := [];
        codeIdx := writeIdx;
        writeIdx := writeIdx + 1;
        code := 1;
      } else {
        if writeIdx >= out.Length {
          return -1;
        }
        PutByte(out, writeIdx, data[i], done, run);
        writeIdx := writeIdx + 1;
        run := run + [data[i]];
        code := code + 1;
        if code == FULL {
          PutCode(out, codeIdx, code, done, run);
          done := done + BlockOf(run);
          run := [];
          codeIdx := writeIdx;
          writeIdx := writeIdx + 1;
          code := 1;
        }
      }
      i := i + 1;
    }
    EncodeEnd(run, data);
    HoldsBounds(out, done, run);
    if codeIdx >= out.Length {
      return -1;
    }
    PutCode(out, codeIdx, code, done, run);
    HoldsBounds(out, done + BlockOf(run), []);
    return writeIdx;
  }

  lemma HoldsNothing(out: array<byte>)
    ensures Holds(out, [], [])
  {
  }

  lemma HoldsBounds(out: array<byte>, done: seq<byte>, run: seq<byte>)
    requires Holds(out, done, run) || (run == [] && |done| >= out.Length)
    ensures |done| < out.Length ==> |done| + 1 + |run| <= out.Length && Holds(out, done, run)
    ensures |done| >= out.Length ==> run == []
    ensures Holds(out, done, run) ==> |done| <= out.Length && out[..|done|] == done
  {
  }

  /** One input byte, on values: what is still to come, and how much room it needs at least. */
  lemma EncodeStep(done: seq<byte>, run: seq<byte>, data: seq<byte>, i: nat)
    requires |run| < MAX_RUN && i < |data|
    ensures
      var d, rest := data[i], data[i + 1..];
      && |BlockOf(run)| == |run| + 1
      && (d == 0 ==>
            done + Encoded(run, data[i..]) == (done + BlockOf(run)) + Encoded([], rest)
            && |Encoded([], rest)| >= 1)
      && (d != 0 && |run| + 1 == MAX_RUN ==>
            |BlockOf(run + [d])| == |run| + 2
            && done + Encoded(run, data[i..]) == (done + BlockOf(run + [d])) + Encoded([], rest))
      && (d != 0 && |run| + 1 < MAX_RUN ==>
            Encoded(run, data[i..]) == Encoded(run + [d], rest))
      && |Encoded(run, data[i..])| >= |run| + 2
  {
    var tail := data[i..];
    assert tail[0] == data[i] && tail[1..] == data[i + 1..];
    EncodedIsNotEmpty([], data[i + 1..]);
    EncodedLength(run, tail);
  }

  lemma EncodeEnd(run: seq<byte>, data: seq<byte>)
    requires |run| < MAX_RUN
    ensures Encoded(run, data[|data|..]) == BlockOf(run) && |BlockOf(run)| == |run| + 1
  {
  }

  /** Copies the count bytes of a block, or stops at the end of the input, a zero or a full buffer. */
  method CopyRun(data: seq<byte>, from: nat, count: nat, out: array<byte>, at: nat) returns (ok: bool)
    requires from <= |data| && at <= out.Length
    modifies out
    ensures ok <==> from + count <= |data| && at + count <= out.Length && 0 !in data[from..from + count]
    ensures ok ==> out[..at + count] == old(out[..at]) + data[from..from + count]
  {
    for i := 0 to count
      invariant from + i <= |data| && at + i <= out.Length
      invariant 0 !in data[from..from + i]
      invariant out[..at + i] == old(out[..at]) + data[from..from + i]
    {
      if from + i >= |data| {
        return false;
      }
      if at + i >= out.Length {
        return false;
      }
      if data[from + i] == 0 {
        assert data[from + i] == if from + count <= |data| then data[from..from + count][i] else 0;
        return false;
      }
      out[at + i] := data[from + i];
      assert data[from..from + i + 1] == data[from..from + i] + [data[from + i]];
    }
    return true;
  }

  /** No decoding fits the buffer. */
  ghost predicate Hopeless(data: seq<byte>, size: nat) {
    Decoded(data) == None || |Decoded(data).value| > size
  }

  /** Reads one block behind what is already decoded. */
  method DecodeOne(data: seq<byte>, readIdx: nat, out: array<byte>, writeIdx: nat, ghost done: seq<byte>)
    returns (ok: bool, newRead: nat, newWrite: nat, ghost newDone: seq<byte>)
    requires readIdx < |data| && writeIdx == |done| <= out.Length && out[..writeIdx] == done
    requires Decoded(data) == Behind(done, Decoded(data[readIdx..]))
    modifies out
    ensures !ok ==> Hopeless(data, out.Length)
    ensures ok ==> readIdx < newRead <= |data| && newWrite == |newDone| <= out.Length
    ensures ok ==> out[..newWrite] == newDone && Decoded(data) == Behind(newDone, Decoded(data[newRead..]))
  {
    hide Decoded, Behind;
    DecodeStep(data, readIdx, done);
    newRead, newWrite, newDone := readIdx, writeIdx, done;
    var code := data[readIdx];
    if code == 0 {
      BehindFacts(done, None);
      return false, newRead, newWrite, newDone;
    }
    newRead := readIdx + 1;
    if newRead + code - 1 <= |data| {
      BehindFacts(Next(data, newRead, code, done), Decoded(data[newRead + code - 1..]));
    }
    BehindFacts(done, None);
    ok := CopyRun(data, newRead, code - 1, out, writeIdx);
    if !ok {
      return;
    }
    newDone := done + data[newRead..newRead + code - 1];
    newRead, newWrite := newRead + code - 1, writeIdx + code - 1;
    if code < FULL && newRead < |data| {
      if newWrite >= out.Length {
        return false, newRead, newWrite, newDone;
      }
      out[newWrite] := 0;
      newDone := newDone + [0];
      newWrite := newWrite + 1;
    }
    assert newDone == Next(data, readIdx + 1, code, done);
  }

  /** Writes the decoded bytes and returns their number, or -1 exactly when the input is not
      well-formed or the buffer is too small. */
  method Decode(data: seq<byte>, out: array<byte>) returns (r: int)
    modifies out
    ensures
      match Decoded(data)
      case None => r == -1
      case Some(d) => if |d| <= out.Length then r == |d| && out[..r] == d else r == -1
  {
    if |data| == 0 {
      return 0;
    }
    hide Decoded, Behind;
    var readIdx, writeIdx := 0, 0;
    ghost var done: seq<byte> := [];
    assert data[0..] == data;
    BehindFacts([], Decoded(data));
    while readIdx < |data|
      invariant 0 <= readIdx <= |data| && writeIdx == |done| <= out.Length
      invariant out[..writeIdx] == done
      invariant Decoded(data) == Behind(done, Decoded(data[readIdx..]))
    {
      var ok, newRead, newWrite, newDone := DecodeOne(data, readIdx, out, writeIdx, done);
      if !ok {
        return -1;
      }
      readIdx, writeIdx, done := newRead, newWrite, newDone;
    }
    DecodesNothing();
    assert data[readIdx..] == [];
    BehindFacts(done, Some([]));
    return writeIdx;
  }

  function Behind(done: seq<byte>, rest: Option<seq<byte>>): Option<seq<byte>> {
    match rest
    case None => None
    case Some(tail) => Some(done + tail)
  }

  lemma BehindFacts(done: seq<byte>, rest: Option<seq<byte>>)
    ensures done == [] ==> Behind(done, rest) == rest
    ensures Behind(done, rest).Some? ==> |Behind(done, rest).value| >= |done|
    ensures rest == Some([]) ==> Behind(done, rest) == Some(done)
    ensures rest == None ==> Behind(done, rest) == None
  {
    if rest.Some? {
      assert [] + rest.value == rest.value && done + [] == done;
    }
  }

  /** What is decoded when the block whose bytes start at `at` has been read. */
  ghost function Next(data: seq<byte>, at: nat, code: byte, done: seq<byte>): (next: seq<byte>)
    requires code > 0 && at + code - 1 <= |data|
    ensures |next| == |done| + code - 1 + if code < FULL && at + code - 1 < |data| then 1 else 0
  {
    done + data[at..at + code - 1] + if code < FULL && at + code - 1 < |data| then [0] else []
  }

  /** One block of input, on values. */
  lemma DecodeStep(data: seq<byte>, at: nat, done: seq<byte>)
    requires at < |data|
    ensures
      var code := data[at];
      && (code == 0 || at + code > |data| ==> Decoded(data[at..]) == None)
      && (code > 0 && at + code <= |data| ==>
            && (0 in data[at + 1..at + code] ==> Decoded(data[at..]) == None)
            && (0 !in data[at + 1..at + code] ==>
                  Behind(done, Decoded(data[at..])) == Behind(Next(data, at + 1, code, done), Decoded(data[at + code..]))))
  {
    var wire := data[at..];
    var code := data[at];
    assert wire[0] == code;
    if code > 0 && at + code <= |data| {
      assert wire[1..code] == data[at + 1..at + code] && wire[code..] == data[at + code..];
      if Decoded(wire[code..]).Some? {
        var run, tail := wire[1..code], Decoded(wire[code..]).value;
        var sep := if code < FULL && at + code < |data| then [0] else [];
        assert done + (run + sep + tail) == (done + run + sep) + tail;
      }
    }
  }
}
