/**
 * The receive/transmit agent of the C ixgbe driver (c/ixgbe/agent.h).
 *
 * An agent owns one packet buffer per descriptor and one descriptor ring
 * per output; ring 0 is shared by reception and the first output. The NIC
 * writes the descriptors' "descriptor done" bits and the transmit heads
 * concurrently: here their values at the time of a call are the state the
 * call reads. Writes to the NIC's tail registers are recorded, in order, in
 * a log.
 */
module IxgbeAgent {
  import opened Bytes
  import opened Arith

  /**
   * Descriptors per ring. device.h, which defines IXGBE_RING_SIZE, is not
   * part of this model: 256 is a power of two above the recycle period that
   * the 8-bit delimiter can index.
   */
  const RingSize: nat := 256
  /** IXGBE_AGENT_FLUSH_PERIOD: packets processed before the transmit tails are written. */
  const FlushPeriod: nat := 8
  /** IXGBE_AGENT_RECYCLE_PERIOD: packets between two reports of the transmit heads. */
  const RecyclePeriod: nat := 64

  // Descriptor metadata flags, as in the 82599's legacy descriptor formats
  // (device.h, which defines the macros, is not part of this model). Each
  // flag is a single bit of the 64-bit metadata word: testing it is
  // `(metadata / flag) % 2`, and OR-ing it into a word where it is clear is
  // adding it.
  const RxMetadataDd: u64 := 0x1_0000_0000  // receive: descriptor done (bit 32)
  const TxMetadataEop: u64 := 0x100_0000    // transmit: end of packet (bit 24)
  const TxMetadataIfcs: u64 := 0x200_0000   // transmit: insert frame checksum (bit 25)
  const TxMetadataRs: u64 := 0x800_0000     // transmit: report status (bit 27)

  /** `metadata & flag != 0`, for a single-bit flag. */
  predicate HasFlag(metadata: u64, flag: u64)
    requires flag > 0
  {
    (metadata / flag) % 2 == 1
  }

  /** IXGBE_RX_METADATA_LENGTH: the received length, `metadata & 0xFFFF`. */
  function RxMetadataLength(metadata: u64): u16
  {
    metadata % 0x1_0000
  }

  /** IXGBE_TX_METADATA_LENGTH: the length to transmit, in the low 16 bits. */
  function TxMetadataLength(length: u16): u64
  {
    length
  }

  // Byte-order conversions between the CPU and the NIC. The NIC is
  // little-endian and so is the x86 host: they leave values unchanged.
  function CpuToLe64(x: u64): u64 { x }
  function Le64ToCpu(x: u64): u64 { x }
  function Le32ToCpu(x: u32): u32 { x }

  type Packet = seq<u8>

  /** A descriptor ring: one descriptor per buffer. */
  type Ring = r: seq<Descriptor> | |r| == RingSize witness seq(RingSize, _ => Descriptor(0, 0))

  /** A descriptor: the buffer's physical address and the metadata word. */
  datatype Descriptor = Descriptor(addr: u64, metadata: u64)

  /** Where the NIC reports how far it has transmitted on one ring. */
  datatype TransmitHead = TransmitHead(value: u32)

  /** A reg_write_raw to the receive tail register or to the transmit tail of an output. */
  datatype TailWrite = ReceiveTail(value: u32) | TransmitTail(output: nat, value: u32)

  /**
   * A packet handler: it sees the packet, its length and the output
   * lengths, and may rewrite the packet and the output lengths (0 means
   * "do not send on that output").
   */
  datatype Handled = Handled(packet: Packet, outputs: seq<u16>)
  type Handler = (Packet, u16, seq<u16>) -> Handled

  /** A handler writes into the outputs array it is given; it cannot change its length. */
  ghost predicate KeepsOutputCount(handler: Handler)
  {
    forall packet, length, outputs :: |handler(packet, length, outputs).outputs| == |outputs|
  }

  // ---------------------------------------------------------------------
  // The arithmetic of ixgbe_run
  // ---------------------------------------------------------------------

  /**
   * `(delimiter + 1u) & (IXGBE_RING_SIZE - 1)`, stored back into 8 bits:
   * masking with a power of two less one is reduction modulo that power.
   */
  function Advance(delimiter: u8): u8
  {
    (delimiter + 1) % RingSize
  }

  /**
   * The RS bit of the descriptor at `delimiter`: set when
   * `(delimiter & (RecyclePeriod - 1)) == RecyclePeriod - 1`, that is once
   * every RecyclePeriod descriptors.
   */
  function RsBit(delimiter: u8): (rs: u64)
    ensures rs == 0 || rs == TxMetadataRs
  {
    if delimiter % RecyclePeriod == RecyclePeriod - 1 then TxMetadataRs else 0
  }

  /**
   * The metadata written to a transmit descriptor:
   * `length | rs | IFCS | EOP`, with the four fields in disjoint bits.
   */
  function TxMetadata(length: u16, rs: u64): u64
    requires rs == 0 || rs == TxMetadataRs
  {
    CpuToLe64(TxMetadataLength(length) + rs + TxMetadataIfcs + TxMetadataEop)
  }

  /**
   * A transmit descriptor's metadata carries the length in its low 16 bits,
   * always asks for end of packet and checksum insertion, and asks for a
   * status report exactly when the RS bit was given.
   */
  lemma TxMetadataFields(length: u16, rs: u64)
    requires rs == 0 || rs == TxMetadataRs
    ensures var m := Le64ToCpu(TxMetadata(length, rs));
      && m % 0x1_0000 == length
      && HasFlag(m, TxMetadataEop)
      && HasFlag(m, TxMetadataIfcs)
      && (HasFlag(m, TxMetadataRs) <==> rs != 0)
  {
    var m := Le64ToCpu(TxMetadata(length, rs));
    var f := if rs == 0 then 0 else 1;
    assert rs == f * TxMetadataRs;
    DivModUnique(m, 0x1_0000, rs / 0x1_0000 + 0x300, length);
    DivModUnique(m, TxMetadataEop, 8 * f + 3, length);
    DivModUnique(m, TxMetadataIfcs, 4 * f + 1, length + TxMetadataEop);
    DivModUnique(m, TxMetadataRs, f, length + TxMetadataIfcs + TxMetadataEop);
  }

  /**
   * `head - delimiter` in 32-bit unsigned arithmetic, widened to 64 bits:
   * how far head is ahead of the delimiter, modulo 2^32.
   */
  function WrapDiff(head: u32, delimiter: u8): u64
  {
    (head - delimiter) % 0x1_0000_0000
  }

  /** `(uint64_t) -1`, the starting minimum. */
  const MaxDiff: u64 := 0xFFFF_FFFF_FFFF_FFFF

  /** The earliest transmit head found so far and its distance. */
  datatype Search = Search(earliest: u32, minDiff: u64)

  /** The search for the earliest transmit head after looking at heads[..n]. */
  function EarliestFrom(heads: seq<u32>, delimiter: u8, n: nat): Search
    requires n <= |heads|
  {
    if n == 0 then Search(delimiter, MaxDiff)
    else
      var s := EarliestFrom(heads, delimiter, n - 1);
      var diff := WrapDiff(heads[n - 1], delimiter);
      if diff <= s.minDiff then Search(heads[n - 1], diff) else s
  }

  /** The output whose head the search holds after looking at heads[..n]. */
  ghost function EarliestIndex(heads: seq<u32>, delimiter: u8, n: nat): (k: nat)
    requires 0 < n <= |heads|
    ensures k < n
  {
    if n == 1 then 0
    else
      var k := EarliestIndex(heads, delimiter, n - 1);
      if WrapDiff(heads[n - 1], delimiter) <= WrapDiff(heads[k], delimiter) then n - 1 else k
  }

  /**
   * After looking at a non-empty prefix, the search holds a head of that
   * prefix at minimal distance, and no later head in it is as close: ties
   * go to the later output. With nothing looked at, it holds the delimiter.
   */
  lemma {:induction false} EarliestFromMinimal(heads: seq<u32>, delimiter: u8, n: nat)
    requires n <= |heads|
    ensures n == 0 ==> EarliestFrom(heads, delimiter, n) == Search(delimiter, MaxDiff)
    ensures n > 0 ==>
      var k := EarliestIndex(heads, delimiter, n);
      && EarliestFrom(heads, delimiter, n) == Search(heads[k], WrapDiff(heads[k], delimiter))
      && (forall i :: 0 <= i < n ==> WrapDiff(heads[k], delimiter) <= WrapDiff(heads[i], delimiter))
      && (forall i :: k < i < n ==> WrapDiff(heads[k], delimiter) < WrapDiff(heads[i], delimiter))
  {
    if n > 1 {
      EarliestFromMinimal(heads, delimiter, n - 1);
    }
  }


  /** The head whose value becomes the receive tail: the earliest of all transmit heads. */
  function EarliestTransmitHead(heads: seq<u32>, delimiter: u8): u32
  {
    EarliestFrom(heads, delimiter, |heads|).earliest
  }

  // ---------------------------------------------------------------------
  // ixgbe_run on values
  // ---------------------------------------------------------------------

  /** What ixgbe_run reads and writes: packet buffers, rings, output lengths, the delimiter and the tail log. */
  datatype AgentState = AgentState(
    buffer: seq<Packet>,
    rings: seq<Ring>,
    outputs: seq<u16>,
    delimiter: u8,
    tailWrites: seq<TailWrite>)

  /** One buffer per descriptor, one ring per output and at least one output. */
  ghost predicate Shaped(s: AgentState)
  {
    && |s.buffer| == RingSize
    && |s.rings| >= 1
    && |s.outputs| == |s.rings|
  }

  /** The metadata of the receive descriptor at the delimiter has its "descriptor done" bit set. */
  predicate Ready(s: AgentState)
    requires Shaped(s)
  {
    HasFlag(Le64ToCpu(s.rings[0][s.delimiter].metadata), RxMetadataDd)
  }

  /** What the handler does with the packet at the delimiter. */
  function Handle(s: AgentState, handler: Handler): Handled
    requires Shaped(s)
  {
    var metadata := Le64ToCpu(s.rings[0][s.delimiter].metadata);
    handler(s.buffer[s.delimiter], RxMetadataLength(metadata), s.outputs)
  }

  /** Every ring with its descriptor at `d` programmed to send outputs[r] bytes. */
  function TransmitDescriptors(rings: seq<Ring>, outputs: seq<u16>, d: u8, rs: u64): (r: seq<Ring>)
    requires rs == 0 || rs == TxMetadataRs
    requires |outputs| == |rings|
  {
    seq(|rings|, r requires 0 <= r < |rings| =>
      rings[r][d := Descriptor(rings[r][d].addr, TxMetadata(outputs[r], rs))])
  }

  /**
   * The receive-tail write that follows the descriptor at `d`, if its RS bit
   * is set. Masking with IXGBE_RING_SIZE - 1 is reduction modulo the ring size.
   */
  function RecycleWrites(heads: seq<u32>, d: u8): (w: seq<TailWrite>)
    ensures |w| == if d % RecyclePeriod == RecyclePeriod - 1 then 1 else 0
    ensures forall k :: 0 <= k < |w| ==> w[k] == ReceiveTail(EarliestTransmitHead(heads, Advance(d)) % RingSize)
  {
    if RsBit(d) != 0
    then [ReceiveTail(EarliestTransmitHead(heads, Advance(d)) % RingSize)]
    else []
  }

  /** The output lengths after they have been reset. */
  function Zeros(count: nat): (z: seq<u16>)
    ensures |z| == count && forall n :: 0 <= n < count ==> z[n] == 0
  {
    seq(count, _ => 0)
  }

  /** One iteration of ixgbe_run's loop, on a descriptor that is done. */
  function ProcessPacket(s: AgentState, heads: seq<u32>, handler: Handler): (t: AgentState)
    requires Shaped(s) && KeepsOutputCount(handler)
    ensures Shaped(t) && |t.rings| == |s.rings|
    ensures t.delimiter == Advance(s.delimiter)
  {
    var d := s.delimiter;
    var handled := Handle(s, handler);
    AgentState(
      s.buffer[d := handled.packet],
      TransmitDescriptors(s.rings, handled.outputs, d, RsBit(d)),
      Zeros(|s.outputs|),
      Advance(d),
      s.tailWrites + RecycleWrites(heads, d))
  }

  /**
   * One iteration stores the handled packet back in its buffer, programs
   * the descriptor at the delimiter on every ring with that output's length
   * (and the RS bit once every RecyclePeriod descriptors), leaves all other
   * descriptors alone, clears the output lengths, and writes the receive
   * tail, with the earliest transmit head, exactly when the RS bit was set.
   */
  lemma ProcessPacketEffect(s: AgentState, heads: seq<u32>, handler: Handler)
    requires Shaped(s) && KeepsOutputCount(handler)
    ensures var t := ProcessPacket(s, heads, handler);
      && t.buffer == s.buffer[s.delimiter := Handle(s, handler).packet]
      && (forall n :: 0 <= n < |t.outputs| ==> t.outputs[n] == 0)
      && (forall n, j :: 0 <= n < |s.rings| && 0 <= j < RingSize ==>
            t.rings[n][j] == if j == s.delimiter
                             then Descriptor(s.rings[n][j].addr,
                                             TxMetadata(Handle(s, handler).outputs[n], RsBit(s.delimiter)))
                             else s.rings[n][j])
      && |t.tailWrites| == |s.tailWrites| + (if s.delimiter % RecyclePeriod == RecyclePeriod - 1 then 1 else 0)
      && t.tailWrites[..|s.tailWrites|] == s.tailWrites
      && (s.delimiter % RecyclePeriod == RecyclePeriod - 1 ==>
            t.tailWrites[|s.tailWrites|] == ReceiveTail(EarliestTransmitHead(heads, t.delimiter) % RingSize))
  {
  }

  /** The state after the loop of ixgbe_run, and the number of packets it processed. */
  datatype Loop = Loop(state: AgentState, processed: nat)

  /** The loop of ixgbe_run from iteration p on. */
  function RunLoop(s: AgentState, heads: seq<u32>, handler: Handler, p: nat): (l: Loop)
    requires Shaped(s) && KeepsOutputCount(handler) && p <= FlushPeriod
    ensures Shaped(l.state) && |l.state.rings| == |s.rings|
    ensures p <= l.processed <= FlushPeriod
    decreases FlushPeriod - p
  {
    if p == FlushPeriod || !Ready(s) then Loop(s, p)
    else RunLoop(ProcessPacket(s, heads, handler), heads, handler, p + 1)
  }

  /** The transmit-tail writes after a flush: every output's tail becomes the delimiter. */
  function TransmitTailWrites(count: nat, delimiter: u8): (w: seq<TailWrite>)
    ensures |w| == count
    ensures forall n :: 0 <= n < count ==> w[n] == TransmitTail(n, delimiter)
  {
    seq(count, n requires 0 <= n < count => TransmitTail(n, delimiter))
  }

  /** ixgbe_run: the loop, then the transmit tails if anything was processed. */
  function RunSpec(s: AgentState, heads: seq<u32>, handler: Handler): AgentState
    requires Shaped(s) && KeepsOutputCount(handler)
  {
    var l := RunLoop(s, heads, handler, 0);
    if l.processed != 0
    then l.state.(tailWrites := l.state.tailWrites + TransmitTailWrites(|s.rings|, l.state.delimiter))
    else l.state
  }

  // ---------------------------------------------------------------------
  // Properties of ixgbe_run
  // ---------------------------------------------------------------------

  /** An iteration changes no descriptor other than the one at the delimiter. */
  lemma ProcessPacketKeepsOthers(s: AgentState, heads: seq<u32>, handler: Handler, r: nat, j: nat)
    requires Shaped(s) && KeepsOutputCount(handler)
    requires r < |s.rings| && j < RingSize && j != s.delimiter
    ensures ProcessPacket(s, heads, handler).rings[r][j] == s.rings[r][j]
  {
  }

  /** The delimiter after k steps round the ring from d. */
  function Later(d: u8, k: nat): u8
    decreases k
  {
    if k == 0 then d else Later(Advance(d), k - 1)
  }

  /** Whether descriptor j is among the k descriptors from d on. */
  predicate Reached(d: u8, k: nat, j: nat)
    decreases k
  {
    k > 0 && (j == d || Reached(Advance(d), k - 1, j))
  }

  /** How many descriptors after `from` the descriptor `j` comes, going round the ring. */
  function Distance(from: nat, j: nat): (k: nat)
    ensures k < RingSize
  {
    (j - from) % RingSize
  }

  /** Stepping the delimiter and then moving k further is moving k + 1. */
  lemma RingStep(d: nat, k: nat)
    requires d < RingSize
    ensures ((d + 1) % RingSize + k) % RingSize == (d + 1 + k) % RingSize
  {
  }

  /** After stepping the delimiter, a descriptor not at it is one closer. */
  lemma DistanceStep(d: nat, j: nat)
    requires d < RingSize && j < RingSize && j != d
    ensures Distance(d, j) >= 1
    ensures Distance((d + 1) % RingSize, j) == Distance(d, j) - 1
  {
  }

  /** The descriptor i places after d is at distance i from it. */
  lemma DistanceOf(d: nat, i: nat)
    requires d < RingSize && i < RingSize
    ensures Distance(d, (d + i) % RingSize) == i
  {
  }

  /** k steps from d is the descriptor at (d + k) modulo the ring size. */
  lemma {:induction false} LaterIsModular(d: u8, k: nat)
    ensures Later(d, k) == (d + k) % RingSize
    decreases k
  {
    if k > 0 {
      LaterIsModular(Advance(d), k - 1);
      RingStep(d, k - 1);
    }
  }

  /** Within one turn of the ring, j is among the k descriptors from d exactly when it is fewer than k places after d. */
  lemma {:induction false} ReachedIsDistance(d: u8, k: nat, j: nat)
    requires k <= RingSize && j < RingSize
    ensures Reached(d, k, j) <==> Distance(d, j) < k
    decreases k
  {
    if k > 0 && j != d {
      DistanceStep(d, j);
      ReachedIsDistance(Advance(d), k - 1, j);
    }
  }

  /** The descriptor i steps from d is among the k descriptors from d when i < k. */
  lemma {:induction false} LaterReached(d: u8, i: nat, k: nat)
    requires i < k
    ensures Reached(d, k, Later(d, i))
    decreases i
  {
    if i > 0 {
      LaterReached(Advance(d), i - 1, k - 1);
    }
  }

  /** The descriptor i steps from d, for k <= i < RingSize, is not among the k descriptors from d. */
  lemma LaterNotReached(d: u8, i: nat, k: nat)
    requires k <= i < RingSize
    ensures !Reached(d, k, Later(d, i))
  {
    LaterIsModular(d, i);
    DistanceOf(d, i);
    ReachedIsDistance(d, k, Later(d, i));
  }

  /** The loop advances the delimiter by one step round the ring per processed packet. */
  lemma {:induction false} RunLoopDelimiter(s: AgentState, heads: seq<u32>, handler: Handler, p: nat)
    requires Shaped(s) && KeepsOutputCount(handler) && p <= FlushPeriod
    ensures var l := RunLoop(s, heads, handler, p);
      l.state.delimiter == Later(s.delimiter, l.processed - p)
    decreases FlushPeriod - p
  {
    if p < FlushPeriod && Ready(s) {
      RunLoopDelimiter(ProcessPacket(s, heads, handler), heads, handler, p + 1);
    }
  }

  /** The loop ends early only on a descriptor that is not done. */
  lemma {:induction false} RunLoopEndsOnNotDone(s: AgentState, heads: seq<u32>, handler: Handler, p: nat)
    requires Shaped(s) && KeepsOutputCount(handler) && p <= FlushPeriod
    ensures var l := RunLoop(s, heads, handler, p);
      l.processed < FlushPeriod ==> !Ready(l.state)
    decreases FlushPeriod - p
  {
    if p < FlushPeriod && Ready(s) {
      RunLoopEndsOnNotDone(ProcessPacket(s, heads, handler), heads, handler, p + 1);
    }
  }

  /** The loop leaves alone every descriptor it has not reached. */
  lemma {:induction false} RunLoopUntouched(s: AgentState, heads: seq<u32>, handler: Handler, p: nat, r: nat, j: nat)
    requires Shaped(s) && KeepsOutputCount(handler) && p <= FlushPeriod
    requires r < |s.rings| && j < RingSize
    requires !Reached(s.delimiter, RunLoop(s, heads, handler, p).processed - p, j)
    ensures RunLoop(s, heads, handler, p).state.rings[r][j] == s.rings[r][j]
    decreases FlushPeriod - p
  {
    if p < FlushPeriod && Ready(s) {
      RunLoopUntouched(ProcessPacket(s, heads, handler), heads, handler, p + 1, r, j);
      ProcessPacketKeepsOthers(s, heads, handler, r, j);
    }
  }

  /** Every descriptor the loop reached was done when it began. */
  lemma {:induction false} RunLoopProcessedWereDone(s: AgentState, heads: seq<u32>, handler: Handler, p: nat, j: nat)
    requires Shaped(s) && KeepsOutputCount(handler) && p <= FlushPeriod && j < RingSize
    requires Reached(s.delimiter, RunLoop(s, heads, handler, p).processed - p, j)
    ensures HasFlag(Le64ToCpu(s.rings[0][j].metadata), RxMetadataDd)
    decreases FlushPeriod - p
  {
    if j != s.delimiter {
      RunLoopProcessedWereDone(ProcessPacket(s, heads, handler), heads, handler, p + 1, j);
      ProcessPacketKeepsOthers(s, heads, handler, 0, j);
    }
  }

  /** Every descriptor among the first `processed` from the delimiter was done. */
  lemma ProcessedPrefixWasDone(s: AgentState, heads: seq<u32>, handler: Handler)
    requires Shaped(s) && KeepsOutputCount(handler)
    ensures forall i :: 0 <= i < RunLoop(s, heads, handler, 0).processed ==>
              HasFlag(Le64ToCpu(s.rings[0][Later(s.delimiter, i)].metadata), RxMetadataDd)
  {
    var k := RunLoop(s, heads, handler, 0).processed;
    forall i | 0 <= i < k
      ensures HasFlag(Le64ToCpu(s.rings[0][Later(s.delimiter, i)].metadata), RxMetadataDd)
    {
      LaterReached(s.delimiter, i, k);
      RunLoopProcessedWereDone(s, heads, handler, 0, Later(s.delimiter, i));
    }
  }

  /** Every descriptor from the `processed`-th after the delimiter to the end of the turn is unchanged. */
  lemma UnprocessedSuffixUntouched(s: AgentState, heads: seq<u32>, handler: Handler)
    requires Shaped(s) && KeepsOutputCount(handler)
    ensures var l := RunLoop(s, heads, handler, 0);
      forall r, i :: 0 <= r < |s.rings| && l.processed <= i < RingSize ==>
        l.state.rings[r][Later(s.delimiter, i)] == s.rings[r][Later(s.delimiter, i)]
  {
    var l := RunLoop(s, heads, handler, 0);
    forall r, i | 0 <= r < |s.rings| && l.processed <= i < RingSize
      ensures l.state.rings[r][Later(s.delimiter, i)] == s.rings[r][Later(s.delimiter, i)]
    {
      LaterNotReached(s.delimiter, i, l.processed);
      RunLoopUntouched(s, heads, handler, 0, r, Later(s.delimiter, i));
    }
  }

  /**
   * One call processes at most FlushPeriod packets, on consecutive
   * descriptors from the delimiter that were all done, and stops early
   * only at the first descriptor that is not done; it leaves the delimiter
   * on the descriptor after the last one processed, and changes no
   * descriptor it has not reached. `Later(d, i)` is the descriptor i places
   * after d round the ring (LaterIsModular).
   */
  lemma RunLoopStopsAtFirstNotDone(s: AgentState, heads: seq<u32>, handler: Handler)
    requires Shaped(s) && KeepsOutputCount(handler)
    ensures var l := RunLoop(s, heads, handler, 0);
      && l.processed <= FlushPeriod
      && l.state.delimiter == Later(s.delimiter, l.processed)
      && (forall i :: 0 <= i < l.processed ==>
            HasFlag(Le64ToCpu(s.rings[0][Later(s.delimiter, i)].metadata), RxMetadataDd))
      && (l.processed < FlushPeriod ==>
            !HasFlag(Le64ToCpu(s.rings[0][Later(s.delimiter, l.processed)].metadata), RxMetadataDd))
      && (forall r, i :: 0 <= r < |s.rings| && l.processed <= i < RingSize ==>
            l.state.rings[r][Later(s.delimiter, i)] == s.rings[r][Later(s.delimiter, i)])
  {
    var l := RunLoop(s, heads, handler, 0);
    RunLoopDelimiter(s, heads, handler, 0);
    ProcessedPrefixWasDone(s, heads, handler);
    UnprocessedSuffixUntouched(s, heads, handler);
    if l.processed < FlushPeriod {
      RunLoopEndsOnNotDone(s, heads, handler, 0);
      assert l.state.rings[0][Later(s.delimiter, l.processed)] == s.rings[0][Later(s.delimiter, l.processed)];
    }
  }

  /** No write in the log is to a transmit tail. */
  predicate OnlyReceiveTails(w: seq<TailWrite>)
  {
    forall k :: 0 <= k < |w| ==> w[k].ReceiveTail?
  }

  /** Appending only receive-tail writes twice is appending only receive-tail writes. */
  lemma AppendsOnlyReceiveTails(a: seq<TailWrite>, b: seq<TailWrite>, c: seq<TailWrite>)
    requires |a| <= |b| <= |c| && b[..|a|] == a && c[..|b|] == b
    requires OnlyReceiveTails(b[|a|..]) && OnlyReceiveTails(c[|b|..])
    ensures c[..|a|] == a && OnlyReceiveTails(c[|a|..])
  {
    assert c[..|a|] == c[..|b|][..|a|];
    forall k | 0 <= k < |c| - |a|
      ensures c[|a|..][k].ReceiveTail?
    {
      if k < |b| - |a| {
        assert c[|a|..][k] == b[|a|..][k];
      } else {
        assert c[|a|..][k] == c[|b|..][k - (|b| - |a|)];
      }
    }
  }

  /** The loop itself only ever appends writes to the receive tail. */
  lemma {:induction false} RunLoopWritesOnlyReceiveTail(s: AgentState, heads: seq<u32>, handler: Handler, p: nat)
    requires Shaped(s) && KeepsOutputCount(handler) && p <= FlushPeriod
    ensures var w := RunLoop(s, heads, handler, p).state.tailWrites;
      && |s.tailWrites| <= |w|
      && w[..|s.tailWrites|] == s.tailWrites
      && OnlyReceiveTails(w[|s.tailWrites|..])
    decreases FlushPeriod - p
  {
    if p < FlushPeriod && Ready(s) {
      var s1 := ProcessPacket(s, heads, handler);
      RunLoopWritesOnlyReceiveTail(s1, heads, handler, p + 1);
      assert s1.tailWrites[|s.tailWrites|..] == RecycleWrites(heads, s.delimiter);
      AppendsOnlyReceiveTails(s.tailWrites, s1.tailWrites, RunLoop(s, heads, handler, p).state.tailWrites);
    }
  }

  /**
   * Appending the transmit-tail writes of at least one output to a log
   * keeps its prefix, and adds a write to every output's transmit tail.
   */
  lemma FlushAppends(a: seq<TailWrite>, w: seq<TailWrite>, count: nat, delimiter: u8)
    requires |a| <= |w| && w[..|a|] == a && count >= 1
    ensures var t := w + TransmitTailWrites(count, delimiter);
      && t[..|a|] == a
      && !OnlyReceiveTails(t[|a|..])
      && forall n :: 0 <= n < count ==> TransmitTail(n, delimiter) in t[|a|..]
  {
    var tails := TransmitTailWrites(count, delimiter);
    var t := w + tails;
    var added := t[|a|..];
    assert t[..|a|] == w[..|a|];
    assert added[|w| - |a|] == tails[0];
    forall n | 0 <= n < count
      ensures TransmitTail(n, delimiter) in added
    {
      assert added[|w| - |a| + n] == tails[n];
    }
  }

  /**
   * ixgbe_run writes every output's transmit tail, with the new delimiter,
   * if and only if it processed at least one packet, which it does exactly
   * when the descriptor at the delimiter is done; it never writes a
   * transmit tail otherwise, and it only appends to the log.
   */
  lemma RunWritesTransmitTailsIffProcessed(s: AgentState, heads: seq<u32>, handler: Handler)
    requires Shaped(s) && KeepsOutputCount(handler)
    ensures var l := RunLoop(s, heads, handler, 0);
      var t := RunSpec(s, heads, handler);
      && (l.processed != 0 <==> Ready(s))
      && t.delimiter == l.state.delimiter
      && |s.tailWrites| <= |t.tailWrites|
      && t.tailWrites[..|s.tailWrites|] == s.tailWrites
      && (OnlyReceiveTails(t.tailWrites[|s.tailWrites|..]) <==> !Ready(s))
      && (Ready(s) ==> forall n :: 0 <= n < |s.rings| ==> TransmitTail(n, t.delimiter) in t.tailWrites[|s.tailWrites|..])
  {
    var l := RunLoop(s, heads, handler, 0);
    RunLoopWritesOnlyReceiveTail(s, heads, handler, 0);
    if l.processed != 0 {
      FlushAppends(s.tailWrites, l.state.tailWrites, |s.rings|, l.state.delimiter);
    }
  }

  // ---------------------------------------------------------------------
  // The agent
  // ---------------------------------------------------------------------

  /** The rings as values: ring r, descriptor j. */
  function RingsOf(a: array2<Descriptor>): (rings: seq<Ring>)
    requires a.Length1 == RingSize
    reads a
    ensures |rings| == a.Length0
    ensures forall r :: 0 <= r < a.Length0 ==> |rings[r]| == a.Length1
    ensures forall r, j :: 0 <= r < a.Length0 && 0 <= j < a.Length1 ==> rings[r][j] == a[r, j]
  {
    seq(a.Length0, r requires 0 <= r < a.Length0 reads a =>
      seq(a.Length1, j requires 0 <= j < a.Length1 reads a => a[r, j]))
  }

  /** The transmit heads as the CPU reads them. */
  function HeadsOf(a: array<TransmitHead>): (heads: seq<u32>)
    reads a
    ensures |heads| == a.Length
    ensures forall n :: 0 <= n < a.Length ==> heads[n] == Le32ToCpu(a[n].value)
  {
    seq(a.Length, n requires 0 <= n < a.Length reads a => Le32ToCpu(a[n].value))
  }

  /** struct ixgbe_agent. */
  class Agent {
    var buffer: array<Packet>
    var rings: array2<Descriptor>
    var processedDelimiter: u8
    var transmitHeads: array<TransmitHead>
    var outputs: array<u16>
    var outputsCount: nat
    /** The writes to the receive and transmit tail registers, oldest first. */
    var tailWrites: seq<TailWrite>

    ghost predicate Valid()
      reads this
    {
      && buffer.Length == RingSize
      && outputsCount >= 1
      && rings.Length0 == outputsCount && rings.Length1 == RingSize
      && transmitHeads.Length == outputsCount
      && outputs.Length == outputsCount
    }

    function State(): AgentState
      requires Valid()
      reads this, buffer, rings, outputs
    {
      AgentState(buffer[..], RingsOf(rings), outputs[..], processedDelimiter, tailWrites)
    }

    lemma ValidIsShaped()
      requires Valid()
      ensures Shaped(State()) && |State().rings| == outputsCount
    {
    }

    /** The caller's struct before ixgbe_agent_init fills it. */
    constructor Uninitialized()
      ensures tailWrites == []
    {
      buffer := new Packet[0];
      rings := new Descriptor[0, 0];
      processedDelimiter := 0;
      transmitHeads := new TransmitHead[0];
      outputs := new u16[0];
      outputsCount := 0;
      tailWrites := [];
    }

    /**
     * ixgbe_agent_init. `bufferPhys[n]` is the physical address of buffer n
     * (tn_mem_virt_to_phys); `outputAccepted[r]` and `inputAccepted` are the
     * results of ixgbe_device_add_output and ixgbe_device_add_input.
     */
    method Init(outputsCount: nat, bufferPhys: seq<u64>, outputAccepted: seq<bool>, inputAccepted: bool)
      returns (ok: bool)
      requires |bufferPhys| == RingSize && |outputAccepted| == outputsCount
      modifies this
      ensures ok <==> outputsCount >= 1 && (forall r :: 0 <= r < outputsCount ==> outputAccepted[r]) && inputAccepted
      ensures ok ==> Valid() && this.outputsCount == outputsCount && processedDelimiter == 0
      ensures ok ==> fresh(buffer) && fresh(rings) && fresh(transmitHeads) && fresh(outputs)
      ensures ok ==> forall r, n :: 0 <= r < outputsCount && 0 <= n < RingSize ==>
                       rings[r, n].addr == CpuToLe64(bufferPhys[n])
      ensures tailWrites == old(tailWrites)
    {
      if outputsCount < 1 {
        return false;
      }
      buffer := new Packet[RingSize];
      transmitHeads := new TransmitHead[outputsCount];
      rings := new Descriptor[outputsCount, RingSize];
      outputs := new u16[outputsCount];

      var r := 0;
      while r < outputsCount
        invariant 0 <= r <= outputsCount
        invariant forall r', n :: 0 <= r' < r && 0 <= n < RingSize ==> rings[r', n].addr == CpuToLe64(bufferPhys[n])
        invariant forall r' :: 0 <= r' < r ==> outputAccepted[r']
        modifies rings
      {
        var n := 0;
        while n < RingSize
          invariant 0 <= n <= RingSize
          invariant forall r', n' :: 0 <= r' < r && 0 <= n' < RingSize ==> rings[r', n'].addr == CpuToLe64(bufferPhys[n'])
          invariant forall n' :: 0 <= n' < n ==> rings[r, n'].addr == CpuToLe64(bufferPhys[n'])
          modifies rings
        {
          var packetPhysAddr := bufferPhys[n];
          rings[r, n] := rings[r, n].(addr := CpuToLe64(packetPhysAddr));
          n := n + 1;
        }
        if !outputAccepted[r] {
          return false;
        }
        r := r + 1;
      }
      if !inputAccepted {
        return false;
      }
      processedDelimiter := 0;
      this.outputsCount := outputsCount;
      return true;
    }

    /**
     * The transmit half of one iteration: descriptor d of every ring is
     * programmed with that output's length and the RS bit, and the output
     * lengths are reset for the next packet.
     */
    method ProgramTransmit(d: u8, rsBit: u64)
      requires Valid() && (rsBit == 0 || rsBit == TxMetadataRs)
      modifies rings, outputs
      ensures RingsOf(rings) == TransmitDescriptors(old(RingsOf(rings)), old(outputs[..]), d, rsBit)
      ensures outputs[..] == Zeros(outputsCount)
    {
      ghost var ringsBefore: seq<Ring> := RingsOf(rings);
      ghost var lengths: seq<u16> := outputs[..];
      var n := 0;
      while n < outputsCount
        invariant 0 <= n <= outputsCount
        invariant forall r, j :: 0 <= r < outputsCount && 0 <= j < RingSize ==>
                    rings[r, j] == if r < n && j == d
                                   then Descriptor(ringsBefore[r][j].addr, TxMetadata(lengths[r], rsBit))
                                   else ringsBefore[r][j]
        invariant forall r :: 0 <= r < outputsCount ==> outputs[r] == if r < n then 0 else lengths[r]
      {
        rings[n, d] := Descriptor(rings[n, d].addr, TxMetadata(outputs[n], rsBit));
        outputs[n] := 0;
        n := n + 1;
      }
      assert RingsOf(rings) == TransmitDescriptors(ringsBefore, lengths, d, rsBit) by {
        forall r | 0 <= r < outputsCount
          ensures RingsOf(rings)[r] == TransmitDescriptors(ringsBefore, lengths, d, rsBit)[r]
        {
        }
      }
      assert outputs[..] == Zeros(outputsCount);
    }

    /** The earliest transmit head, the search at the end of an iteration that set the RS bit. */
    method EarliestHead() returns (earliestTransmitHead: u32)
      requires Valid()
      ensures earliestTransmitHead == EarliestTransmitHead(HeadsOf(transmitHeads), processedDelimiter)
    {
      ghost var heads := HeadsOf(transmitHeads);
      earliestTransmitHead := processedDelimiter;
      var minDiff: u64 := MaxDiff;
      var n := 0;
      while n < outputsCount
        invariant 0 <= n <= outputsCount
        invariant Search(earliestTransmitHead, minDiff) == EarliestFrom(heads, processedDelimiter, n)
      {
        var head := Le32ToCpu(transmitHeads[n].value);
        var diff := WrapDiff(head, processedDelimiter);
        if diff <= minDiff {
          earliestTransmitHead := head;
          minDiff := diff;
        }
        n := n + 1;
      }
    }

    /** The handler's result: the packet goes back into buffer d and the output lengths are the handler's. */
    method StoreHandled(d: u8, handled: Handled)
      requires Valid() && |handled.outputs| == outputsCount
      modifies buffer, outputs
      ensures buffer[..] == old(buffer[..])[d := handled.packet]
      ensures outputs[..] == handled.outputs
    {
      buffer[d] := handled.packet;
      forall n | 0 <= n < outputs.Length {
        outputs[n] := handled.outputs[n];
      }
    }

    /** One iteration of ixgbe_run's loop. */
    method ProcessOne(handler: Handler)
      requires Valid() && KeepsOutputCount(handler)
      modifies this`processedDelimiter, this`tailWrites, buffer, rings, outputs
      ensures Valid()
      ensures Shaped(old(State())) && State() == ProcessPacket(old(State()), HeadsOf(transmitHeads), handler)
    {
      ValidIsShaped();
      ghost var before: AgentState := State();
      ghost var heads: seq<u32> := HeadsOf(transmitHeads);
      var d := processedDelimiter;
      var receiveMetadata := Le64ToCpu(rings[0, d].metadata);
      var handled := handler(buffer[d], RxMetadataLength(receiveMetadata), outputs[..]);
      assert handled == Handle(before, handler);
      StoreHandled(d, handled);
      var rsBit := RsBit(d);
      ProgramTransmit(d, rsBit);
      processedDelimiter := Advance(processedDelimiter);
      if rsBit != 0 {
        var earliestTransmitHead := EarliestHead();
        tailWrites := tailWrites + [ReceiveTail(earliestTransmitHead % RingSize)];
      }
      assert tailWrites == before.tailWrites + RecycleWrites(heads, d);
      assert RingsOf(rings) == TransmitDescriptors(before.rings, handled.outputs, d, rsBit);
      assert buffer[..] == before.buffer[d := handled.packet];
    }

    /** The final flush of ixgbe_run: every output's transmit tail becomes the delimiter. */
    method FlushTransmitTails()
      requires Valid()
      modifies this`tailWrites
      ensures tailWrites == old(tailWrites) + TransmitTailWrites(outputsCount, processedDelimiter)
    {
      ghost var loopWrites := tailWrites;
      var n := 0;
      while n < outputsCount
        invariant 0 <= n <= outputsCount
        invariant tailWrites == loopWrites + TransmitTailWrites(n, processedDelimiter)
      {
        tailWrites := tailWrites + [TransmitTail(n, processedDelimiter)];
        n := n + 1;
      }
    }

    /**
     * One turn of ixgbe_run's loop at iteration p: stop at a descriptor that
     * is not done, or process it. Either way the rest of the loop from here
     * is the rest of the loop from the state left behind.
     */
    method RunStep(handler: Handler, ghost heads: seq<u32>, ghost p: nat) returns (stop: bool)
      requires Valid() && KeepsOutputCount(handler) && p < FlushPeriod && HeadsOf(transmitHeads) == heads
      modifies this`processedDelimiter, this`tailWrites, buffer, rings, outputs
      ensures Valid() && Shaped(old(State())) && Shaped(State())
      ensures stop <==> !Ready(old(State()))
      ensures stop ==> State() == old(State())
      ensures !stop ==> State() == ProcessPacket(old(State()), heads, handler)
      ensures stop ==> RunLoop(old(State()), heads, handler, p) == Loop(State(), p)
      ensures !stop ==> RunLoop(old(State()), heads, handler, p) == RunLoop(State(), heads, handler, p + 1)
    {
      ValidIsShaped();
      ghost var pre := State();
      var receiveMetadata := Le64ToCpu(rings[0, processedDelimiter].metadata);
      assert receiveMetadata == Le64ToCpu(pre.rings[0][pre.delimiter].metadata);
      if !HasFlag(receiveMetadata, RxMetadataDd) {
        return true;
      }
      ProcessOne(handler);
      ValidIsShaped();
      return false;
    }

    /** The loop of ixgbe_run: up to FlushPeriod turns; `processed` is the final value of p. */
    method ForwardBatch(handler: Handler, ghost heads: seq<u32>) returns (processed: nat)
      requires Valid() && KeepsOutputCount(handler) && HeadsOf(transmitHeads) == heads
      modifies this`processedDelimiter, this`tailWrites, buffer, rings, outputs
      ensures Valid() && Shaped(old(State()))
      ensures RunLoop(old(State()), heads, handler, 0) == Loop(State(), processed)
    {
      ValidIsShaped();
      ghost var target := RunLoop(State(), heads, handler, 0);
      var p := 0;
      while p < FlushPeriod
        invariant 0 <= p <= FlushPeriod
        invariant Valid() && Shaped(State())
        invariant RunLoop(State(), heads, handler, p) == target
      {
        var stop := RunStep(handler, heads, p);
        if stop {
          return p;
        }
        p := p + 1;
      }
      return p;
    }

    /** ixgbe_run: forward up to FlushPeriod received packets through the handler, then flush. */
    method Run(handler: Handler)
      requires Valid() && KeepsOutputCount(handler)
      modifies this`processedDelimiter, this`tailWrites, buffer, rings, outputs
      ensures Valid()
      ensures Shaped(old(State())) && State() == RunSpec(old(State()), HeadsOf(transmitHeads), handler)
    {
      ValidIsShaped();
      ghost var start := State();
      ghost var heads := HeadsOf(transmitHeads);
      var p := ForwardBatch(handler, heads);
      if p != 0 {
        FlushTransmitTails();
      }
    }
  }
}
