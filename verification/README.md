# Network protocols from scratch: a verified model

The repository is a networking course made of small C lessons. This project models the lessons whose code
carries real state or arithmetic and proves what each of them is for:

- **Rdt, GoBackN** - the Go-Back-N sender and receiver, and the protocol they form over a network that
  loses, duplicates and reorders.
- **Stp, StpNetwork, StpTree, StpStale** - one spanning-tree bridge, the distributed election, the tree it
  settles on, and how a stale BPDU takes it off that tree. The lesson has no transmit function, so the
  environment carries honest BPDUs (the sender's current root, cost and identifier) over any topology, with
  any delay. Priority vectors follow clause 17.6 of IEEE 802.1D-2004.
- **Checksum** - the Internet checksum (section 1 of RFC 1071) and its incremental update (section 3 of
  RFC 1624).
- **Fragment, Reassembly, FragmentRoundTrip** - IP fragmentation and reassembly (section 3.2 of RFC 791).
- **PolyDivision, Crc** - table-driven CRCs against long division of polynomials over GF(2).
- **Cobs, BitStuffing** - COBS and HDLC bit stuffing (section 5.2 of RFC 1662) over packed bytes.
- **Sack, SackEviction** - the selective-acknowledgement scoreboard (section 4 of RFC 2018) as a set of
  numbers, and which block it gives up when full.
- **SeqNum, Tcb** - 32-bit sequence numbers (section 3.4 of RFC 9293) as views of unbounded counters.
- **Reno** - the Reno congestion controller (sections 3.1 and 3.2 of RFC 5681).
- **SendWindow, RecvWindow, ByteStream** - the ring buffer and the compacting buffer as one byte stream.
- **Bitwise, Cidr, Lpm** - CIDR arithmetic (section 5.1 of RFC 4632) and the longest-prefix-match table.
- **MacTable, L2Switch, SwitchRuns** - the VLAN-aware learning switch.

Code that changes things in place is a class or a method over arrays; its contract equates the new state with
a function of the old one, and the lemmas are about that function. Fixed-width integers are ranges of `int`
(`Words`), and every wrap the source relies on or suffers from is written out. Remainders that occur in
specifications (`Low32`, `Low16`, `SendWindow.Slot`, the byte halves in `Fragment`) are defined by going round,
and proved equal to `%` and `/`, which the methods use. `dafny verify dfyconfig.toml`
checks everything.

Where the code differs from its own comments, the model follows the code:

- A Go-Back-N timeout adds base and window in 32 bits; when that wraps, nothing is retransmitted
  (`Rdt.TimeoutCoversFlight`, `GoBackN.WrappingTimeoutIsReachable`).
- The comment on `sack.c:70` says the least recent block is dropped when the board is full. It is the last
  slot's, and since all blocks but the most recent are in ascending order, that is the highest of the others
  (`SackEviction.LeastRecentMayStay`; when it is the oldest, `SackEviction.OldestIsEvictedIff`).
- A COBS or bit-stuffing receiver accepts slightly more than a sender produces; by how much is stated exactly.
- Reassembly accepts a run of fragments whose last one still has MF set, so a lost tail is not noticed
  (`FragmentRoundTrip.OnlyALostTailIsMissed`).
- `nfs_stp_process_bpdu` believes any BPDU for its root that arrives on the root port, even an old one with a
  higher cost (`StpTree.ExactUnlessStale`). Shortest paths therefore need bounded delay
  (`StpStale.OneStaleBpduSpoilsIt`); the election of the root does not. It does not use `nfs_bpdu_superior`.
- `nfs_tcb_ack_received` does not compare an acknowledgement with snd_nxt, although the comment in
  `seqnum.c:6-8` quotes that rule (`Tcb.AckOfUnsentIsBelieved`; the rule is met exactly when peers acknowledge
  only what was sent, `Tcb.AckRuleIsKept`).
- The send window compares numbers as plain integers: past 2^32 it is stuck for good
  (`SendWindow.WrappedForGood`).
- With windows of more than mss segments Reno grows by more than one mss per window
  (`Reno.OneSegmentPerWindow`).
- The switch's VLAN table (create, delete) has no influence on forwarding; only the ports' masks do.

## Model

| member | source | states |
|---|---|---|
| Rdt.Sender.Send | phases/04-transport/16-reliable-data-transfer/rdt.c:13-37 | a payload of 1 to 1024 bytes is appended as the next unacknowledged segment and its number returned, exactly when window and array have room; otherwise -1 and no change |
| Rdt.Sender.Ack | phases/04-transport/16-reliable-data-transfer/rdt.c:39-57 | the base moves to the acknowledged number, never back and never past the end; exactly the segments passed are marked; returns how many |
| Rdt.Sender.Timeout | phases/04-transport/16-reliable-data-transfer/rdt.c:59-75 | returns, and adds to the 32-bit counter, the number of unacknowledged segments below the 32-bit sum base + window |
| Rdt.Receiver.Receive | phases/04-transport/16-reliable-data-transfer/rdt.c:85-106 | accepts exactly the segment expected next, appends its data up to the 65536-byte buffer, and answers with the next number expected |
| Rdt.SenderStepsKeepWellFormed | phases/04-transport/16-reliable-data-transfer/rdt.c:13-75 | every sender step keeps: numbers follow the array, acknowledged is exactly "below base", the window is respected |
| Rdt.TimeoutCoversFlight | phases/04-transport/16-reliable-data-transfer/rdt.c:59-75 | a timeout covers everything in flight if and only if base + window does not wrap (or nothing is in flight); when it wraps it retransmits nothing |
| Rdt.AckMovesBaseToIt | phases/04-transport/16-reliable-data-transfer/rdt.c:39-57 | an acknowledgement of k moves the base to exactly k for every k in the window, to the end for a greater one, not at all for a smaller one, and marks exactly what lies below the base |
| GoBackN.StepKeepsInv | phases/04-transport/16-reliable-data-transfer/rdt.c:13-106 | every step of sender, receiver and a lossy, duplicating, reordering network keeps the protocol invariant |
| GoBackN.StreamIsGivenData | phases/04-transport/16-reliable-data-transfer/rdt.c:13-37 | in every run the segments are the data of the Send calls that were accepted: as many, in order, unchanged, and joined they make the stream that Safety speaks of |
| GoBackN.Safety | phases/04-transport/16-reliable-data-transfer/rdt.c:13-106 | in every run base <= expected <= count <= base + window, all marked segments were accepted, the sender holds exactly the data of the run's Send calls, the i-th under number i, and the receive buffer is the first expected of those data, joined and cut at 65536 bytes |
| GoBackN.Recovery | phases/04-transport/16-reliable-data-transfer/rdt.c:39-106 | from every reachable state with data in flight, a timeout retransmits exactly count - base segments, and delivering one copy of each plus the last acknowledgement ends with base = expected = count and everything given to Send, joined and cut at 65536 bytes, received |
| GoBackN.WrappingTimeoutIsReachable | phases/04-transport/16-reliable-data-transfer/rdt.c:59-75 | with a window of 2^32 - 1 five events lead to a sender with one segment in flight whose timeout retransmits nothing |
| Stp.MemCmpIsNumeric | phases/02-link-layer/09-spanning-tree-stp-intuition/stp.c:10-14 | comparing packed identifiers byte by byte is comparing them as big-endian numbers |
| Stp.IdCmpIsRankOrder | phases/02-link-layer/09-spanning-tree-stp-intuition/stp.c:10-14 | bridge identifiers compare by priority, then address: the total order of their 64-bit values |
| Stp.SuperiorIsStrictTotalOrder | phases/02-link-layer/09-spanning-tree-stp-intuition/stp.c:209-238 | "superior" is a strict total order on BPDUs (asymmetric, total, irreflexive, transitive) |
| Stp.SuperiorIsLexicographic | phases/02-link-layer/09-spanning-tree-stp-intuition/stp.c:209-238 | it is the lexicographic order of root, cost, sender and port, the lowest first |
| Stp.InitialIsConsistent | phases/02-link-layer/09-spanning-tree-stp-intuition/stp.c:244-285 | a bridge that was just initialised, with any initialised ports, satisfies the bridge invariant |
| Stp.ProcessedIsConsistent | phases/02-link-layer/09-spanning-tree-stp-intuition/stp.c:287-337 | every BPDU keeps the bridge invariant (one root-role port, the root port, whose stored BPDU accounts for root and cost); the new root is the better of the two; the cost is at most the one offered |
| Stp.ProcessedVector | phases/02-link-layer/09-spanning-tree-stp-intuition/stp.c:287-337 | root, cost and root port either all stay or all come from this BPDU; for an unchanged root only over the root port or at a smaller cost |
| Stp.IgnoredBpdus | phases/02-link-layer/09-spanning-tree-stp-intuition/stp.c:287-296 | a worse root changes nothing, and neither does a BPDU for its own root at a bridge that is root |
| Stp.RolesAtABetterRoot | phases/02-link-layer/09-spanning-tree-stp-intuition/stp.c:300-314 | a better root makes the port it came by the root port and every other port designated |
| Stp.RolesAtTheRootPort | phases/02-link-layer/09-spanning-tree-stp-intuition/stp.c:315-319 | over the root port any cost for the same root is taken, and no role changes |
| Stp.RedundantPortIsBlocked | phases/02-link-layer/09-spanning-tree-stp-intuition/stp.c:329-333 | a port that hears the same root at no smaller cost becomes alternate and stores the BPDU; nothing else changes |
| Stp.RolesAtACheaperPath | phases/02-link-layer/09-spanning-tree-stp-intuition/stp.c:320-328 | a smaller cost moves the root port and leaves the old one designated |
| Stp.EqualPathsLeaveOneForwarding | phases/02-link-layer/09-spanning-tree-stp-intuition/stp.c:300-333 | of two ports that hear one better root at equal cost the first becomes root port and the second alternate |
| Stp.Bridge.constructor | phases/02-link-layer/09-spanning-tree-stp-intuition/stp.c:273-285 | a new bridge takes itself for the root, at cost 0, without a root port |
| Stp.Bridge.PortInit | phases/02-link-layer/09-spanning-tree-stp-intuition/stp.c:244-252 | a new port is designated, with its identifier, cost and an empty stored BPDU; the bridge stays initial |
| Stp.Bridge.BecomeRootPort | phases/02-link-layer/09-spanning-tree-stp-intuition/stp.c:305-314 | one port takes the root role and the BPDU, every other becomes designated |
| Stp.Bridge.ProcessBpdu | phases/02-link-layer/09-spanning-tree-stp-intuition/stp.c:287-337 | the in-place update of bridge and ports is the value-level transition that the lemmas are about |
| StpNetwork.FindWalk | phases/02-link-layer/09-spanning-tree-stp-intuition/stp.c:273-337 | for any bridge at any moment of any run, a real walk to a real bridge through its root port, whose cost is the bridge's modulo 2^32 |
| StpNetwork.FindExactWalk | phases/02-link-layer/09-spanning-tree-stp-intuition/stp.c:273-337 | when no cost sum of the run reaches 2^32, such a walk whose cost is exactly the bridge's |
| StpNetwork.DistanceVectorSoundness | phases/02-link-layer/09-spanning-tree-stp-intuition/stp.c:273-337 | with BPDUs lost, delayed, duplicated or reordered at will and sums below 2^32, each root_id is a real bridge, root_path_cost is the exact cost of a real walk there through root_port, and cost 0 with root_port -1 exactly at a self-styled root |
| StpNetwork.SoundnessModulo | phases/02-link-layer/09-spanning-tree-stp-intuition/stp.c:273-337 | without any assumption on sums the same holds with the cost modulo 2^32 |
| StpNetwork.RootNeverWorsens | phases/02-link-layer/09-spanning-tree-stp-intuition/stp.c:287-337 | root_id never increases at any bridge in any run |
| StpNetwork.RootSpreads | phases/02-link-layer/09-spanning-tree-stp-intuition/stp.c:287-337 | after r rounds in which every link is crossed, every bridge within r hops of the best one has it as root for good |
| StpNetwork.ElectionConverges | phases/02-link-layer/09-spanning-tree-stp-intuition/stp.c:273-337 | then only the best bridge has root_port -1, and every other has exactly one port in the root role |
| StpTree.NoWalkIsShorter | phases/02-link-layer/09-spanning-tree-stp-intuition/stp.c:254-337 | the distances used below bound the cost of every walk from below |
| StpTree.SomeWalkIsAsShort | phases/02-link-layer/09-spanning-tree-stp-intuition/stp.c:254-337 | and each is the cost of some walk |
| StpTree.AlwaysModest | phases/02-link-layer/09-spanning-tree-stp-intuition/stp.c:287-337 | no bridge ever claims less than its distance, nor less than the way through its root port costs |
| StpTree.Settles | phases/02-link-layer/09-spanning-tree-stp-intuition/stp.c:287-337 | a bridge with at most k bridges nearer to the root has its exact distance after 2k rounds of bounded delay, for good |
| StpTree.ExactUnlessStale | phases/02-link-layer/09-spanning-tree-stp-intuition/stp.c:315-319 | an arrival makes a bridge at its distance leave it if and only if it comes over the root port, from a sender with the same root, and offers more |
| StpTree.DistancesExist | phases/02-link-layer/09-spanning-tree-stp-intuition/stp.c:254-337 | in a connected topology every bridge has a cheapest walk to the root, and these costs are the distances used |
| StpTree.ShortestPathTree | phases/02-link-layer/09-spanning-tree-stp-intuition/stp.c:273-337 | in a connected network of n bridges with point-to-point links, positive costs and sums below 2^32, after 2(n - 1) timely rounds every bridge has the best root and the cost of a cheapest walk there, and its one root-role port leads to a bridge nearer by exactly that port's cost |
| StpStale.OneStaleBpduSpoilsIt | phases/02-link-layer/09-spanning-tree-stp-intuition/stp.c:315-319 | timeliness is needed: a run that meets every other condition, with one BPDU from before the second round arriving after the last, takes a bridge from its shortest distance 2 to 6 |
| Checksum.Partial | common/c/checksum.c:12-32 | the accumulator ends as seed plus the word sum of any length, mod 2^32 |
| Checksum.WordSumByPosition | common/c/checksum.c:12-32 | that word sum is 256 times the bytes at even places plus those at odd places, so an odd last byte is a high half |
| Checksum.PaddingIsOnTheRight | common/c/checksum.c:27-29 | a zero byte appended to an odd buffer leaves sum and checksum as they are |
| Checksum.FoldKeepsOnes | common/c/checksum.c:34-41 | folding carries keeps the one's-complement value, and shrinks any sum of more than 16 bits |
| Checksum.Fold | common/c/checksum.c:34-41 | the fold loop returns the complement of the one's-complement value of its argument |
| Checksum.InternetChecksum | common/c/checksum.c:43-45 | the RFC 1071 checksum for up to 65537 words; for any length, that of the wrapped sum |
| Checksum.OneWordMoreWraps | common/c/checksum.c:12-45 | 65537 is the exact bound: 65538 words of all ones give a wrong checksum |
| Checksum.WordSumAppend | common/c/checksum.c:12-32 | a checksum may be taken piece by piece, the earlier pieces of even length |
| Checksum.StoredChecksumVerifies | common/c/checksum.c:43-45 | a buffer that holds its own checksum sums to zero at the receiver |
| Checksum.Update | phases/03-network-layer/02-internet-checksum/incremental.c:10-21 | one-word update by equation 3 of RFC 1624 |
| Checksum.UpdateN | phases/03-network-layer/02-internet-checksum/incremental.c:25-40 | update for an even run of bytes, with the 32-bit accumulator's wrap |
| Checksum.IncrementalUpdateIsExact | phases/03-network-layer/02-internet-checksum/incremental.c:10-40 | replacing an aligned even run of 2 to 65536 bytes and updating equals recomputing if and only if the new data is not all zero; then 0x0000 stands for 0xFFFF |
| Checksum.UpdateNIsIterated | phases/03-network-layer/02-internet-checksum/incremental.c:25-40 | the run update equals the one-word updates one after another, for every old checksum |
| Fragment.ParseWire | phases/03-network-layer/07-ip-fragmentation/fragment.c:52-135 | reading a packed header back gives the header |
| Fragment.WireParse | phases/03-network-layer/07-ip-fragmentation/fragment.c:52-135 | packing a read header gives the bytes |
| Fragment.WireLayout | phases/03-network-layer/07-ip-fragmentation/fragment.c:52-135 | version, length, flags word and checksum stand at bytes 0, 2, 6 and 10, high byte first |
| Fragment.FlagBits | phases/03-network-layer/07-ip-fragmentation/fragment.c:36-46 | offset, MF and DF as read here are the 13 low bits and the single bits of the flags word |
| Fragment.RewrittenVerifies | phases/03-network-layer/07-ip-fragmentation/fragment.c:17-30 | every header whose length or flags are rewritten again sums to a valid checksum |
| Fragment.IpChecksum | phases/03-network-layer/07-ip-fragmentation/fragment.c:17-30 | the local checksum loop computes the RFC 1071 checksum |
| Fragment.PiecesIsCeiling | phases/03-network-layer/07-ip-fragmentation/fragment.c:92-95 | the fragment count announced is payload / maximum payload rounded up |
| Fragment.SplitCount | phases/03-network-layer/07-ip-fragmentation/fragment.c:92-132 | and that is how many fragments the loop produces |
| Fragment.MakeFragment | phases/03-network-layer/07-ip-fragmentation/fragment.c:98-132 | offset in 8-byte units added to the packet's own, MF set unless it is the last piece of an unfragmented tail, checksum recomputed |
| Fragment.FillFragments | phases/03-network-layer/07-ip-fragmentation/fragment.c:97-134 | the loop fills the array with the split of the payload, in order |
| Fragment.FragmentOutcome | phases/03-network-layer/07-ip-fragmentation/fragment.c:52-95 | the same exact outcome for the split that the round trip is about |
| Fragment.FragmentPacket | phases/03-network-layer/07-ip-fragmentation/fragment.c:52-135 | from the raw bytes: -1 exactly for a short buffer or header, no fragment record, a length beyond the buffer, or one beyond the MTU with DF set or an MTU below 28; -2 exactly when the rounded-up quotient exceeds the room; otherwise the packet itself if it fits, or that many fragments of at most the MTU |
| Reassembly.SortByOffset | phases/03-network-layer/07-ip-fragmentation/fragment.c:142-152 | a permutation of the fragments in offset order |
| Reassembly.ChainsExactly | phases/03-network-layer/07-ip-fragmentation/fragment.c:173-189 | offsets chain exactly when each fragment starts where those before it end, in 8-byte units, and every one but the last has MF |
| Reassembly.JoinPayloads | phases/03-network-layer/07-ip-fragmentation/fragment.c:173-205 | accepts exactly when offsets chain from zero, all but the last have MF and the buffer has room; then the payloads are joined |
| Reassembly.Reassemble | phases/03-network-layer/07-ip-fragmentation/fragment.c:154-223 | accepts exactly those arrival sets, and writes the rebuilt packet |
| FragmentRoundTrip.HopsKeepCover | phases/03-network-layer/07-ip-fragmentation/fragment.c:52-135 | after any chain of MTUs, fragments fragmented again, what is under way covers the packet exactly |
| FragmentRoundTrip.SortIsUnique | phases/03-network-layer/07-ip-fragmentation/fragment.c:142-152 | the pieces of one packet can be sorted in one way only, so the library sort does not matter |
| FragmentRoundTrip.CanonicalIsIdentity | phases/03-network-layer/07-ip-fragmentation/fragment.c:207-223 | reassembly gives back the packet byte for byte if and only if its flags word was zero and its checksum the computed one |
| FragmentRoundTrip.RoundTrip | phases/03-network-layer/07-ip-fragmentation/fragment.c:52-223 | fragmented through any MTUs and arriving in any order, every packet is accepted and comes back, byte for byte under exactly that condition |
| FragmentRoundTrip.OnlyALostTailIsMissed | phases/03-network-layer/07-ip-fragmentation/fragment.c:173-205 | of one packet's pieces any subset is accepted if and only if nothing is missing in front of the last one that arrived: only a lost tail goes unnoticed |
| PolyDivision.DivisionIdentity | phases/01-bits-and-wires/08-errors-and-crcs-crc-81632/crc.c:23-128 | dividend = quotient * generator + remainder over GF(2) |
| PolyDivision.RemainderIsUnique | phases/01-bits-and-wires/08-errors-and-crcs-crc-81632/crc.c:23-128 | and they are the only ones: any q and r shorter than the generator with dividend = q * generator + r are that quotient and remainder |
| PolyDivision.RunIsRemainder | phases/01-bits-and-wires/08-errors-and-crcs-crc-81632/crc.c:23-128 | the bit-serial register ends with the remainder of the shifted message |
| PolyDivision.RunLinear | phases/01-bits-and-wires/08-errors-and-crcs-crc-81632/crc.c:23-128 | the register is linear in start value and message |
| PolyDivision.TableStep | phases/01-bits-and-wires/08-errors-and-crcs-crc-81632/crc.c:38-128 | one table lookup per byte does what eight bit-serial steps do |
| PolyDivision.BurstDetected | phases/01-bits-and-wires/08-errors-and-crcs-crc-81632/crc.c:38-128 | messages that differ, and only inside n consecutive bits, never leave the same register |
| PolyDivision.LongerBurst | phases/01-bits-and-wires/08-errors-and-crcs-crc-81632/crc.c:38-128 | inside n + 1 bits they do exactly when the difference is the generator |
| Crc.ReflectedConstant | phases/01-bits-and-wires/08-errors-and-crcs-crc-81632/crc.c:99-100 | the reflected constant 0xEDB88320 is the bit reversal of the generator 0x04C11DB7 |
| Crc.Generator8 | phases/01-bits-and-wires/08-errors-and-crcs-crc-81632/crc.c:23-36 | 0x07 is x^8 + x^2 + x + 1 |
| Crc.Generator16 | phases/01-bits-and-wires/08-errors-and-crcs-crc-81632/crc.c:57-70 | 0x1021 is x^16 + x^12 + x^5 + 1 |
| Crc.Generator32 | phases/01-bits-and-wires/08-errors-and-crcs-crc-81632/crc.c:99-100 | 0x04C11DB7 is the generator of IEEE 802.3 |
| Crc.MessageBitsAt | phases/01-bits-and-wires/08-errors-and-crcs-crc-81632/crc.c:38-128 | message bits run from the most significant bit of each byte, for CRC-32 from the least significant |
| Crc.Tables.InitTable8 | phases/01-bits-and-wires/08-errors-and-crcs-crc-81632/crc.c:23-36 | entry i is the register after eight steps from i |
| Crc.Tables.InitTable16 | phases/01-bits-and-wires/08-errors-and-crcs-crc-81632/crc.c:57-70 | the same for 16 bits |
| Crc.Tables.InitTable32 | phases/01-bits-and-wires/08-errors-and-crcs-crc-81632/crc.c:102-115 | the same for the reflected 32-bit register |
| Crc.Tables.Crc8 | phases/01-bits-and-wires/08-errors-and-crcs-crc-81632/crc.c:38-48 | the table-driven CRC-8 is the remainder of polynomial division of the message |
| Crc.Tables.Crc16 | phases/01-bits-and-wires/08-errors-and-crcs-crc-81632/crc.c:72-83 | the table-driven CRC-16, start 0xFFFF, likewise |
| Crc.Tables.Crc32 | phases/01-bits-and-wires/08-errors-and-crcs-crc-81632/crc.c:117-128 | the table-driven CRC-32 (the frame check sequence of clause 3.2.9 of IEEE 802.3), reflected, start and final complement, likewise |
| Crc.EmptyMessages | phases/01-bits-and-wires/08-errors-and-crcs-crc-81632/crc.c:38-128 | start values and final complement: no bytes give 0, 0xFFFF and 0 |
| Crc.BurstsAreDetected | phases/01-bits-and-wires/08-errors-and-crcs-crc-81632/crc.c:38-128 | no two equal-length messages that differ only inside 8, 16 or 32 consecutive bits share their CRC-8, -16 or -32 |
| Crc.ByteBurstsAreDetected | phases/01-bits-and-wires/08-errors-and-crcs-crc-81632/crc.c:38-128 | the same for 1, 2 and 4 consecutive bytes |
| Cobs.RoundTrip | phases/01-bits-and-wires/10-framing-byte-stuffing-bit-stuffing/framing.c:176-252 | for every input: no 0x00 on the wire, between len + 1 and len + 1 + len / 254 bytes, and decoding gives the input back |
| Cobs.WireForm | phases/01-bits-and-wires/10-framing-byte-stuffing-bit-stuffing/framing.c:176-216 | a run below 254 nonzero bytes goes out behind its length plus one and consumes the zero behind it; 254 go out behind 255 and consume none |
| Cobs.EncodedDecoded | phases/01-bits-and-wires/10-framing-byte-stuffing-bit-stuffing/framing.c:218-252 | what else the decoder accepts: encoding a decoded wire gives it back, with a final empty block added exactly when it is empty or ends in a full block |
| Cobs.Encode | phases/01-bits-and-wires/10-framing-byte-stuffing-bit-stuffing/framing.c:176-216 | the back-patching loop writes the encoding, or returns -1 exactly when the buffer is shorter than it |
| Cobs.Decode | phases/01-bits-and-wires/10-framing-byte-stuffing-bit-stuffing/framing.c:218-252 | the decoder loop writes the decoded bytes, or returns -1 exactly when the wire is malformed or the buffer too small |
| BitStuffing.RoundTrip | phases/01-bits-and-wires/10-framing-byte-stuffing-bit-stuffing/framing.c:100-165 | for every bit string: unstuffing undoes stuffing, six ones in a row never appear, at most n + n / 5 bits |
| BitStuffing.StuffedUnstuffed | phases/01-bits-and-wires/10-framing-byte-stuffing-bit-stuffing/framing.c:133-165 | what else the receiver accepts: only a string whose last stuffed zero is missing |
| BitStuffing.SetBit | phases/01-bits-and-wires/10-framing-byte-stuffing-bit-stuffing/framing.c:91-98 | writing bit n of a packed buffer extends its first n bits by that bit |
| BitStuffing.BitsMakeTheByte | phases/01-bits-and-wires/10-framing-byte-stuffing-bit-stuffing/framing.c:86-98 | the eight bits of a byte, most significant first, have the value of the byte |
| BitStuffing.BitStuff | phases/01-bits-and-wires/10-framing-byte-stuffing-bit-stuffing/framing.c:100-131 | on packed bytes: -1 exactly when the buffer is below the room asked for, otherwise the stuffed string and its length |
| BitStuffing.BitUnstuff | phases/01-bits-and-wires/10-framing-byte-stuffing-bit-stuffing/framing.c:133-165 | on packed bytes: the data bits and their number, or -1 exactly for six ones or too small a buffer |
| Sack.SortBlocks | phases/04-transport/19-selective-acknowledgment-sack/sack.c:29-40 | insertion sort in place: sorted by left edge, a permutation, the rest of the array untouched |
| Sack.MergeBlocks | phases/04-transport/19-selective-acknowledgment-sack/sack.c:43-61 | afterwards nonempty blocks ascend with gaps between them and cover the same set |
| Sack.Scoreboard.IsSacked | phases/04-transport/19-selective-acknowledgment-sack/sack.c:103-109 | true exactly for the numbers some block covers |
| Sack.Scoreboard.AddBlock | phases/04-transport/19-selective-acknowledgment-sack/sack.c:63-97 | the covered set becomes the old one, minus the last slot's block if all four were in use, plus the new range; blocks stay nonempty, disjoint and not adjacent; block 0 holds the range; a range that touches no block kept becomes block 0, with the blocks kept behind it in ascending order |
| Sack.SameSetSameBlocks | phases/04-transport/19-selective-acknowledgment-sack/sack.c:43-61 | separated blocks are determined by the set they cover |
| SackEviction.OldestIsEvictedIff | phases/04-transport/19-selective-acknowledgment-sack/sack.c:65-73 | for ranges that touch no block, a full board gives up its oldest block if and only if that has the greatest left edge of the blocks behind the most recent one |
| SackEviction.LeastRecentMayStay | phases/04-transport/19-selective-acknowledgment-sack/sack.c:69-73 | after [0,1), [10,11), [20,21), [30,31) a fifth range evicts [20,21) while the oldest, [0,1), stays |
| SackEviction.PlacedIsUnique | phases/04-transport/19-selective-acknowledgment-sack/sack.c:63-97 | what is added to a board determines the next board |
| Sack.Scoreboard.FindRecent | phases/04-transport/19-selective-acknowledgment-sack/sack.c:78-87 | the merged block that holds the new range |
| Sack.Scoreboard.MoveToFront | phases/04-transport/19-selective-acknowledgment-sack/sack.c:88-94 | rotates that block to the front, the others keep their order |
| Sack.Scoreboard.AdvanceCumack | phases/04-transport/19-selective-acknowledgment-sack/sack.c:115-132 | trims the blocks one by one, survivors in their old order, so the covered set is intersected with [new_ack, infinity); an older acknowledgement changes nothing |
| Sack.TrimmedBlockByBlock | phases/04-transport/19-selective-acknowledgment-sack/sack.c:121-131 | a block at or below the acknowledgement goes, one across it starts there, the others stay, all in order |
| Sack.HolesAreHoles | phases/04-transport/19-selective-acknowledgment-sack/sack.c:199-224 | the holes of ascending blocks are nonempty, ascending, and exactly what is missing between the acknowledgement and the highest edge |
| Sack.Scoreboard.Holes | phases/04-transport/19-selective-acknowledgment-sack/sack.c:199-224 | lists those holes, or as many of the first as there is room for |
| SeqNum.DiffIsExact | phases/04-transport/12-sequence-number-arithmetic-mod-2/seqnum.c:53-55 | the signed difference of two wrapped counters is their true difference if and only if that lies in [-2^31, 2^31) |
| SeqNum.OrderIsExact | phases/04-transport/12-sequence-number-arithmetic-mod-2/seqnum.c:23-37 | for counters less than 2^32 apart each of lt, le, gt, ge tells the true order if and only if they are within half the circle |
| SeqNum.BetweenIsExact | phases/04-transport/12-sequence-number-arithmetic-mod-2/seqnum.c:39-42 | between, within half the circle of both ends |
| SeqNum.InWindowIsExact | phases/04-transport/12-sequence-number-arithmetic-mod-2/seqnum.c:57-71 | the window test is right if and only if the number does not fall into the window of the lap before |
| SeqNum.BeforeIsAnOrder | phases/04-transport/12-sequence-number-arithmetic-mod-2/seqnum.c:23-25 | exactly opposite numbers are each before the other; otherwise the comparison is antisymmetric and total |
| SeqNum.BeforeIsTransitive | phases/04-transport/12-sequence-number-arithmetic-mod-2/seqnum.c:23-25 | it is transitive exactly when the outer pair is still within half the circle |
| SeqNum.AddWire | phases/04-transport/12-sequence-number-arithmetic-mod-2/seqnum.c:48-51 | adding on the wire is adding to the unbounded counter |
| Tcb.Tcb.constructor | phases/04-transport/11-tcb-transmission-control-block/tcb.c:5-15 | sequence variables start at 0, both windows at 65535, the four-tuple is stored |
| Tcb.Tcb.SetIss | phases/04-transport/11-tcb-transmission-control-block/tcb.c:17-21 | snd_una = iss and snd_nxt = iss + 1, wrapping |
| Tcb.Tcb.SetIrs | phases/04-transport/11-tcb-transmission-control-block/tcb.c:23-26 | rcv_nxt = irs + 1, wrapping |
| Tcb.Tcb.SndAvailable | phases/04-transport/11-tcb-transmission-control-block/tcb.c:28-33 | what is left of the window after 32-bit in-flight, as a signed int |
| Tcb.Tcb.AdvanceSnd | phases/04-transport/11-tcb-transmission-control-block/tcb.c:35-37 | moves snd_nxt as the transition used in the runs |
| Tcb.Tcb.AckReceived | phases/04-transport/11-tcb-transmission-control-block/tcb.c:39-47 | moves snd_una as the transition used in the runs |
| Tcb.Tcb.DataReceived | phases/04-transport/11-tcb-transmission-control-block/tcb.c:49-51 | moves rcv_nxt as the transition used in the runs |
| Tcb.AckTakesTheLater | phases/04-transport/11-tcb-transmission-control-block/tcb.c:39-47 | for an acknowledgement within 2^32 of una the result is max(una, ack) if and only if the two are within half the circle |
| Tcb.AvailableIsRoom | phases/04-transport/11-tcb-transmission-control-block/tcb.c:28-33 | the room reported is max(0, wnd - in flight) if and only if that is below 2^31 |
| Tcb.AckRuleIsKept | phases/04-transport/11-tcb-transmission-control-block/tcb.c:39-47 | for acknowledgements within half the circle, the rule una < ack <= nxt is met, and una stays behind nxt, if and only if ack <= nxt |
| Tcb.AckOfUnsentIsBelieved | phases/04-transport/11-tcb-transmission-control-block/tcb.c:39-47 | with one number out an acknowledgement of 1000 moves una to 1000 and leaves no room |
| Tcb.RunRefines | phases/04-transport/11-tcb-transmission-control-block/tcb.c:17-51 | in every run that keeps less than 2^31 in flight, with windows below 2^31 and acknowledgements of sent numbers no more than 2^31 old, across any number of wraps, the 32-bit variables are the low bits of unbounded ones, less than 2^31 is in flight, and the true room is reported |
| Reno.Reno.constructor | phases/04-transport/26-tcp-reno/tcp_reno.c:14-19 | cwnd = mss and ssthresh = 65535 |
| Reno.Reno.OnAck | phases/04-transport/26-tcp-reno/tcp_reno.c:21-46 | leaves recovery, or grows by one segment or by mss * mss / cwnd (at least 1), in uint32 arithmetic |
| Reno.Reno.OnDupAck | phases/04-transport/26-tcp-reno/tcp_reno.c:48-65 | the third duplicate halves, inflates and asks for a retransmission; later ones inflate |
| Reno.Reno.OnTimeout | phases/04-transport/26-tcp-reno/tcp_reno.c:67-72 | halves the threshold and restarts from one segment |
| Reno.Reno.ExitRecovery | phases/04-transport/26-tcp-reno/tcp_reno.c:74-78 | deflates to the threshold |
| Reno.AckKeepsASegmentIffItFits | phases/04-transport/26-tcp-reno/tcp_reno.c:21-46 | an acknowledgement leaves cwnd >= mss if and only if its uint32 sum does not wrap |
| Reno.AckForgetsDuplicates | phases/04-transport/26-tcp-reno/tcp_reno.c:21-46 | a new acknowledgement resets the duplicate count in every phase and leaves the threshold |
| Reno.StartsSteady | phases/04-transport/26-tcp-reno/tcp_reno.c:14-19 | a new controller with a positive mss satisfies the run invariant |
| Reno.RunIsSteady | phases/04-transport/26-tcp-reno/tcp_reno.c:21-78 | in every run without overflow: cwnd >= mss, in_recovery exactly from three duplicates on, and then cwnd = ssthresh + dup_ack_count * mss |
| Reno.SlowStart | phases/04-transport/26-tcp-reno/tcp_reno.c:32-34 | below the threshold n acknowledgements add n segments |
| Reno.AvoidanceGrowth | phases/04-transport/26-tcp-reno/tcp_reno.c:35-43 | n acknowledgements in congestion avoidance add between n times the last and n times the first increment |
| Reno.WindowGrowth | phases/04-transport/26-tcp-reno/tcp_reno.c:35-43 | the cwnd / mss acknowledgements of one window add at most max(mss, cwnd / mss) bytes |
| Reno.OneSegmentPerWindow | phases/04-transport/26-tcp-reno/tcp_reno.c:35-43 | the "one mss per window" of section 3.1 of RFC 5681 is met if and only if cwnd / mss <= mss |
| Reno.TimeoutThenSlowStart | phases/04-transport/26-tcp-reno/tcp_reno.c:32-72 | after a timeout the threshold is max(cwnd / 2, 2 * mss) and n acknowledgements below it bring cwnd to (n + 1) * mss |
| Reno.FastRecovery | phases/04-transport/26-tcp-reno/tcp_reno.c:48-78 | three duplicates, any number more and a new acknowledgement: one retransmission, and cwnd = ssthresh = max(cwnd / 2, 2 * mss) of the start |
| SendWindow.SendWindow.constructor | phases/04-transport/13-sliding-window-basics/sliding_window.c:19-27 | an empty window at the initial number |
| SendWindow.SendWindow.Send | phases/04-transport/13-sliding-window-basics/sliding_window.c:56-65 | stores the byte in its ring slot exactly when less than the window is in flight |
| SendWindow.SendWindow.Ack | phases/04-transport/13-sliding-window-basics/sliding_window.c:71-88 | accepts base..next_seq, marks exactly the slots passed, returns how many |
| SendWindow.SendWindow.GetData | phases/04-transport/13-sliding-window-basics/sliding_window.c:94-109 | the piece of the ring from a number in flight to the end of ring or flight; nothing otherwise |
| SendWindow.SlotsDiffer | phases/04-transport/13-sliding-window-basics/sliding_window.c:60-62 | fewer than the capacity apart, numbers have different slots |
| SendWindow.SendsWhileThereIsRoom | phases/04-transport/13-sliding-window-basics/sliding_window.c:48-65 | a window in order sends exactly while less than the window is in flight |
| SendWindow.AckMovesBaseToIt | phases/04-transport/13-sliding-window-basics/sliding_window.c:71-88 | an acknowledgement of any number in flight moves base to exactly that number, others change nothing |
| SendWindow.PushKeepsHolds | phases/04-transport/13-sliding-window-basics/sliding_window.c:56-65 | sending keeps every byte in flight intact in the ring |
| SendWindow.ChunkIsWhatWasSent | phases/04-transport/13-sliding-window-basics/sliding_window.c:94-109 | every piece fetched is a nonempty piece of what was sent at that place, available exactly in flight |
| SendWindow.TwoChunksCoverTheFlight | phases/04-transport/13-sliding-window-basics/sliding_window.c:94-109 | two fetches cover everything in flight |
| SendWindow.OnlyTheLastNumberWraps | phases/04-transport/13-sliding-window-basics/sliding_window.c:56-65 | a window leaves order at exactly one byte, the one numbered 2^32 - 1 |
| SendWindow.WrappedForGood | phases/04-transport/13-sliding-window-basics/sliding_window.c:56-109 | from then on, whatever is called, no acknowledgement is accepted, nothing can be fetched and base never moves |
| RecvWindow.RecvWindow.AdvertisedWindow | phases/04-transport/21-receive-window-and-zero-window-probes/recv_win.c:30-34 | 32 bits of the free space |
| RecvWindow.RecvWindow.IsZero | phases/04-transport/21-receive-window-and-zero-window-probes/recv_win.c:83-87 | true exactly when the buffer is full |
| RecvWindow.RecvWindow.Receive | phases/04-transport/21-receive-window-and-zero-window-probes/recv_win.c:36-62 | takes exactly in-order data, as much as fits, appends it and moves rcv_nxt; -1 for any other number |
| RecvWindow.RecvWindow.ReadInto | phases/04-transport/21-receive-window-and-zero-window-probes/recv_win.c:64-81 | hands out the oldest bytes and compacts: read bytes followed by the rest are what was buffered |
| RecvWindow.TakesWhatFits | phases/04-transport/21-receive-window-and-zero-window-probes/recv_win.c:36-62 | in-order data that fits is taken whole |
| RecvWindow.FillsUp | phases/04-transport/21-receive-window-and-zero-window-probes/recv_win.c:36-62 | in-order data that does not fit fills the buffer to its end |
| RecvWindow.AdvertisedIsFreeSpace | phases/04-transport/21-receive-window-and-zero-window-probes/recv_win.c:30-34 | the advertised window is the free space if and only if that is below 2^32 |
| ByteStream.StepKeepsInv | phases/04-transport/13-sliding-window-basics/sliding_window.c:56-109 | every write, transmission, arrival, read and acknowledgement keeps the stream invariant |
| ByteStream.OneStream | phases/04-transport/21-receive-window-and-zero-window-probes/recv_win.c:36-81 | in every run below 2^32 bytes: base <= rcv_nxt <= next_seq <= base + window, bytes in flight intact in the ring, read ++ buffered = the first rcv_nxt bytes sent |
| ByteStream.RoundAdvances | phases/04-transport/13-sliding-window-basics/sliding_window.c:94-109 | read, fetch what the receiver waits for, deliver: rcv_nxt advances and never past next_seq |
| ByteStream.CanAlwaysFinish | phases/04-transport/13-sliding-window-basics/sliding_window.c:56-109 | from every such state some run gets everything sent read and acknowledged |
| Cidr.MaskValue | phases/03-network-layer/03-cidr-and-subnetting/cidr.c:61-65 | the mask of a length is 2^32 - 2^(32 - len) |
| Cidr.MaskComparesTops | phases/03-network-layer/03-cidr-and-subnetting/cidr.c:88-91 | masking and comparing is comparing the leading bits |
| Cidr.BlockIsARange | phases/03-network-layer/03-cidr-and-subnetting/cidr.c:67-91 | contains holds exactly between network and broadcast address |
| Cidr.HostsAreTheInside | phases/03-network-layer/03-cidr-and-subnetting/cidr.c:76-86 | host_count is the block without its two ends, which only /31 and /32 keep |
| Cidr.OverlapIsSharing | phases/03-network-layer/03-cidr-and-subnetting/cidr.c:93-100 | blocks overlap if and only if they share an address |
| Cidr.OverlapIsNesting | phases/03-network-layer/03-cidr-and-subnetting/cidr.c:93-100 | and if and only if the one with the longer prefix lies inside the other |
| Cidr.PrefixesNest | phases/03-network-layer/03-cidr-and-subnetting/cidr.c:61-69 | addresses that agree on a longer prefix agree on every shorter one |
| Lpm.CutTwice | phases/03-network-layer/04-longest-prefix-match-routing/lpm.c:53-58 | a stored, masked prefix compares like any address |
| Lpm.TableSize | phases/03-network-layer/04-longest-prefix-match-routing/lpm.c:62-63 | the map has as many keys as the array has routes |
| Lpm.RouteTable.Find | phases/03-network-layer/04-longest-prefix-match-routing/lpm.c:53-59 | the scan finds a key exactly when the map has it |
| Lpm.RouteTable.Add | phases/03-network-layer/04-longest-prefix-match-routing/lpm.c:45-72 | map update with the masked key; refused exactly for a bad length or a new key in a full table |
| Lpm.RouteTable.Remove | phases/03-network-layer/04-longest-prefix-match-routing/lpm.c:74-90 | map removal by swapping with the last route; keys stay masked and unique |
| Lpm.RouteTable.Lookup | phases/03-network-layer/04-longest-prefix-match-routing/lpm.c:92-111 | the matching key of greatest length in the map and its hop; none exactly when nothing matches |
| Lpm.LongestIsUnique | phases/03-network-layer/04-longest-prefix-match-routing/lpm.c:92-111 | there is only one such key, so the order of the array does not matter |
| Lpm.MatchesNest | phases/03-network-layer/04-longest-prefix-match-routing/lpm.c:98-108 | all keys that match an address are nested blocks |
| Lpm.MatchingIsContainment | phases/03-network-layer/04-longest-prefix-match-routing/lpm.c:98-108 | a stored route matches exactly the addresses of its block |
| MacTable.FreeSlot | phases/02-link-layer/18-capstone-a-tiny-l2-switch/l2switch.c:168-179 | a slot is free exactly when fewer keys than slots are listed |
| MacTable.WriteKeepsHolds | phases/02-link-layer/18-capstone-a-tiny-l2-switch/l2switch.c:158-178 | (mac, vlan) keys stay unique when a station is written |
| L2Switch.Switch.constructor | phases/02-link-layer/18-capstone-a-tiny-l2-switch/l2switch.c:38-53 | no ports, no stations, aging 300, all counters 0 |
| L2Switch.Switch.AddPort | phases/02-link-layer/18-capstone-a-tiny-l2-switch/l2switch.c:55-77 | up to 32 ports; a new one allows its own VLAN only |
| L2Switch.Switch.PortAllowVlan | phases/02-link-layer/18-capstone-a-tiny-l2-switch/l2switch.c:140-148 | sets one bit of the mask of an existing port |
| L2Switch.Switch.MacLearn | phases/02-link-layer/18-capstone-a-tiny-l2-switch/l2switch.c:154-180 | map update; a new key only while a slot is free |
| L2Switch.Switch.MacLookup | phases/02-link-layer/18-capstone-a-tiny-l2-switch/l2switch.c:182-193 | map lookup, -1 when absent |
| L2Switch.Switch.MacFlush | phases/02-link-layer/18-capstone-a-tiny-l2-switch/l2switch.c:195-201 | the map becomes empty |
| L2Switch.Switch.MacAge | phases/02-link-layer/18-capstone-a-tiny-l2-switch/l2switch.c:203-213 | exactly the entries as old as the aging time go |
| L2Switch.Switch.MacCount | phases/02-link-layer/18-capstone-a-tiny-l2-switch/l2switch.c:215-224 | the number of keys |
| L2Switch.Switch.ProcessFrame | phases/02-link-layer/18-capstone-a-tiny-l2-switch/l2switch.c:230-324 | VLAN, membership, counters, learning and decision as one transition of ports, map and totals |
| L2Switch.AdmittedFromBytes | phases/02-link-layer/18-capstone-a-tiny-l2-switch/l2switch.c:230-259 | a frame is on a VLAN exactly when its bytes say so: 0x81 0x00 and the low 12 bits behind them on a trunk, the port's own VLAN otherwise |
| SwitchRuns.FrameIsOnItsVlan | phases/02-link-layer/18-capstone-a-tiny-l2-switch/l2switch.c:252-294 | its outcome is on that VLAN, and a single-station source is learned there if the port is a member and a slot is free |
| SwitchRuns.TaggedOnATrunk | phases/02-link-layer/18-capstone-a-tiny-l2-switch/l2switch.c:252-262 | a tag on a trunk decides for any priority and any VLAN number below 4096 |
| SwitchRuns.RefusedFrames | phases/02-link-layer/18-capstone-a-tiny-l2-switch/l2switch.c:233-262 | short frames, inactive ports and cut-off tags change nothing |
| SwitchRuns.CountersFollowTheOutcome | phases/02-link-layer/18-capstone-a-tiny-l2-switch/l2switch.c:240-324 | each frame moves exactly the counters of its outcome, at the switch and at its ports, by one |
| SwitchRuns.AllowAdds | phases/02-link-layer/18-capstone-a-tiny-l2-switch/l2switch.c:140-148 | allowing a VLAN adds that one to the mask and no other |
| SwitchRuns.NewPortAllows | phases/02-link-layer/18-capstone-a-tiny-l2-switch/l2switch.c:69-73 | a new port has the mode and VLAN given and allows exactly that VLAN, none when it is 64 or more |
| SwitchRuns.StepKeepsInv | phases/02-link-layer/18-capstone-a-tiny-l2-switch/l2switch.c:55-324 | every step keeps isolation, the counter equations and agreement with the record of last sightings |
| SwitchRuns.EveryRun | phases/02-link-layer/18-capstone-a-tiny-l2-switch/l2switch.c:38-324 | in every run learned ports are members of their VLAN, the table agrees with where stations were last seen, total_rx = forwarded + flooded + dropped = sum of port rx, total_tx = forwarded = sum of port tx |
| SwitchRuns.ForwardedFrames | phases/02-link-layer/18-capstone-a-tiny-l2-switch/l2switch.c:296-324 | a forwarded frame leaves on another port, a member of the VLAN that the frame's bytes name, where the destination was last seen |
| SwitchRuns.NothingForgotten | phases/02-link-layer/18-capstone-a-tiny-l2-switch/l2switch.c:154-180 | without aging or flush, and while no more than 1024 stations were seen, the table is the full record |
| SwitchRuns.SightingsDecide | phases/02-link-layer/18-capstone-a-tiny-l2-switch/l2switch.c:278-324 | in such runs flood, drop and forward are decided exactly by where the destination was last seen on the VLAN that the frame's bytes name |
| SwitchRuns.SightingFromBytes | phases/02-link-layer/18-capstone-a-tiny-l2-switch/l2switch.c:264-294 | a frame is a sighting exactly if its bytes put it on a VLAN of its port and its source is a single station |
| SwitchRuns.SilentStationsGo | phases/02-link-layer/18-capstone-a-tiny-l2-switch/l2switch.c:203-213 | a station just seen is gone after n silent ticks and an aging if and only if n is at least the aging time |
| SwitchRuns.AgeIsElapsed | phases/02-link-layer/18-capstone-a-tiny-l2-switch/l2switch.c:208-209 | a 32-bit age is the time passed if and only if that is below 2^32 ticks |

## Left out

- FragmentRoundTrip.RoundTrip: packets outside the fragmenter's domain (20-byte header, length at least 20 and within the buffer, MTU 20 to 1500) are not covered; below 20 the C arithmetic on the MTU goes negative, above 1500 the fragment record is too small.
- Reassembly.SortByOffset: the internals of qsort; only that it returns a permutation in offset order is used, and for one packet's pieces that fixes the result.
- Reassembly.Reassemble: the bytes a fragment record holds beyond its payload length, and fragments of different packets told apart by identification, which the source does not do either.
- Fragment.FragmentPacket: headers with options, total lengths below 20 and MTUs above 1500; the source says it only handles 20-byte headers but copies 20 bytes whatever the length, subtracts the header from the length unchecked, and stores payloads in 1480-byte records.
- StpTree.ShortestPathTree: shared segments, where one port hears several senders, zero path costs and cost sums of 2^32 or more; soundness and the election of the root cover the first two.
- StpNetwork.DistanceVectorSoundness: dishonest BPDUs, and topology changes during a run; cost sums of 2^32 or more are covered modulo 2^32 only, by StpNetwork.SoundnessModulo.
- Tcb.RunRefines: acknowledgements more than half the sequence space old, and acknowledgements of unsent data, for which Tcb.AckTakesTheLater and Tcb.AckRuleIsKept say what one step does.
- ByteStream.OneStream: initial numbers other than 0, since the receive window always starts at 0, and 2^32 or more bytes; SendWindow.PushKeepsHolds covers any initial number.
- SendWindow.SendWindow.constructor: windows larger than the buffer, which `sliding_window.h:32` tells callers not to ask for.
- SendWindow.SendWindow.Ack: the int flags of the source are booleans here.
- Sack.MergeBlocks: empty or inverted blocks, which no call with nonempty ranges can produce.
- Sack.Scoreboard.AddBlock: ranges that wrap or are empty; the source compares plain 32-bit numbers and stores them unchecked.
- SwitchRuns.EveryRun: `nfs_sw_set_port_mode` and direct outside calls of `nfs_sw_mac_learn`, which can leave entries for VLANs a port no longer allows; port mirroring, which the source stores but never uses.
- Reno.RunIsSteady: direct outside calls of `nfs_reno_exit_recovery`, and runs in which a uint32 sum wraps.
- Byte stuffing: a warm-up for the two codings modelled, with the same kind of round trip.
- Building and parsing BPDUs, SACK options and Ethernet frames, the STP port states and timers, four-tuple matching: fixed layouts and single comparisons.
- Text formatting and parsing of addresses, blocks and tables, phase names.
- Zero-window-probe timers, CUBIC, RTO, Nagle, modulation and channel capacity: floating point or easy bounds.
- Allocation failure and null pointers: the model works on arrays that exist.
- BBR, the connection state table, the retransmission queue, NAT, the learning bridge and the second routing table: near copies of, or weaker than, what is modelled.
- Raw sockets, TUN/TAP, capture files, the demonstration programs and the website.
