# tinynf core, modelled in Dafny

tinynf is a minimal network function for Intel 82599 ("ixgbe") NICs. It
is written several times over, in C, Rust and C#. This project models the
parts that decide what the forwarder does:

- **`env.dfy`** (module `Env`): the Rust hardware environment. It covers:
  - legacy PCI configuration access through ports 0xCF8/0xCFC;
  - the bump allocator over one 1 GB hugepage;
  - the element-count check of a `/dev/mem` mapping;
  - virtual-to-physical translation through a `/proc/self/pagemap` entry.
- **`agent.dfy`** (module `IxgbeAgent`): the C receive/transmit agent.
  - `ixgbe_agent_init` programs every ring's buffer addresses.
  - `ixgbe_run` is specified two ways:
    - on values, as `RunSpec` on an `AgentState`;
    - imperatively, as `Agent.Run` over the agent's arrays. Its contract is
      that the new state is `RunSpec` of the old one.
  - The lemmas about `RunSpec` say which packets are forwarded, which
    descriptors change, and which tail registers are written.
- **`forwarder.dfy`** (module `Forwarder`): the Rust forwarder's own logic.
  - `parse_pci_address` is modelled on top of `str::split` and
    `u8::from_str_radix(_, 16)`. Splitting round-trips with joining the
    pieces by their separators, and parsing round-trips with two-digit hex
    formatting, which has a positional reference value.
  - `proc` is the per-packet MAC rewrite.
- **`packet_data.dfy`** (module `TinyNfPacketData`): the C# packet buffer,
  with its range-checked byte indexer and unaligned 32/64-bit writes.
- **`array256_array.dfy`** (module `TinyNfArray256Array`): the C# array of
  256-element blocks, its indexer and its enumerator.
- **Support modules:**
  - `wrappers.dfy`: `Option` and `Result`;
  - `bytes.dfy`: unsigned integer ranges and little-endian encoding with its
    round trips;
  - `arith.dfy`: division and remainder facts.

Notes on the model:

- **PCI access.** The model records the port accesses PCI reads and writes
  make, and runs them against a simulated mechanism-#1 configuration space.
  Nothing touches hardware.
- **Concurrent NIC writes.** The NIC writes the agent's descriptors and
  transmit heads concurrently. In the model, their values at the time of a
  call are part of the state that call reads.
- **Tail registers.** Writes to the receive and transmit tail registers are
  appended to a log (`tailWrites`).
- **Allocator padding.** The model follows the code. The formula
  is `used % (S + 64 - S % 64)`, which is not an address alignment:
  - Two allocations of ten 4-byte elements land at offsets 0 and 80 (lemma
    `TwoSmallAllocations`). Padding to the next multiple of 64 would instead
    have placed the second one at 64.
  - The code also pads when the element size is a multiple of 64; the
    modulus is then S + 64.
  - When the allocation check fails, the cursor has already been advanced
    by the padding (`AllocStepOutcome`).
- **Write range check.** The C# `Write32`/`Write64` check is
  `index >= Size - width`. It also rejects the last position where the
  value would still fit (`WriteAllowedIsConservative`). The model keeps
  that behaviour.

## Model

| member | source | states |
|---|---|---|
| Env.PciTargetWord | rust/src/env.rs:53-58 | the CONFIG_ADDRESS word has the enable bit 31 set and the register number in its low byte |
| Env.PciTargetWordFields | rust/src/env.rs:56 | for device < 32 and function < 8, bus, device and function are read back from bits 16-23, 11-15 and 8-10, and bits 24-30 are clear |
| Env.PciReadAccesses | rust/src/env.rs:171-174 | pci_read is exactly three accesses: the target word to 0xCF8, a zero byte to the delay port, then a read of 0xCFC |
| Env.PciWriteAccesses | rust/src/env.rs:176-179 | pci_write is exactly four accesses: the target word to 0xCF8, a zero byte to the delay port, the value to 0xCFC, and another zero byte to the delay port |
| Env.PciWriteThenRead | rust/src/env.rs:171-179 | against a configuration space, a pci_write followed by a pci_read of the same register reads back exactly the value written |
| Env.AlignModulus | rust/src/env.rs:104 | the padding modulus is a multiple of 64, at least 64, and lies in (size, size + 64] |
| Env.AlignDiff | rust/src/env.rs:104 | the padding is below the modulus and never more than the bytes used; on a cursor below the modulus it equals the cursor |
| Env.AllocStep | rust/src/env.rs:101-126 | one allocation never moves the cursor back and keeps it inside the hugepage; a success starts at or after the old cursor and ends exactly at the new one |
| Env.AllocStepCases | rust/src/env.rs:104-123 | with the padding computed as the code does, the step panics for alignment when padding plus cursor reaches 1 GB, panics for allocation (cursor advanced by the padding) when padded cursor plus full size reaches 1 GB, and otherwise succeeds at the padded cursor |
| Env.AllocStepOutcome | rust/src/env.rs:104-123 | the alignment panic happens iff padding plus cursor reaches 1 GB and leaves the cursor unchanged; the allocation panic leaves it advanced by the padding; success happens iff padded cursor plus the full size stays below 1 GB, at offset cursor + padding |
| Env.AllocAllDisjoint | rust/src/env.rs:101-126 | successive allocations get disjoint regions, in increasing order, each exactly count*size long and below the final cursor; all requests are served unless one panics |
| Env.TwoSmallAllocations | rust/src/env.rs:104 | two allocations of ten 4-byte elements from a fresh page land at offsets 0 and 80, not at a multiple of 64 |
| Env.TryIntoArray | rust/src/env.rs:98 | the conversion of a slice to a fixed-size array succeeds exactly when the lengths agree, and keeps the slice |
| Env.LinuxEnvironment.constructor | rust/src/env.rs:74-93 | a new environment starts with nothing used and its write pointer at the hugepage |
| Env.LinuxEnvironment.AllocateSlice | rust/src/env.rs:101-126 | the result and the new cursor follow AllocStep; the pointer and the cursor move together; a success is `count` elements at the old pointer plus the padding |
| Env.LinuxEnvironment.Allocate | rust/src/env.rs:97-99 | allocate succeeds exactly when allocate_slice does and then yields COUNT elements, so its unwrap never panics |
| Env.AlignTo | rust/src/env.rs:135 | align_to_mut splits the bytes into prefix, whole elements and suffix that add up to the length; a non-empty middle starts at an aligned address and leaves less than one element over |
| Env.AlignOffset | rust/src/env.rs:135 | the offset to the next aligned address is below the alignment, reaches an aligned address, and is zero exactly when the address is aligned |
| Env.MapPhysicalMemory | rust/src/env.rs:128-141 | a failed mapping is an error; a successful one starts at the mapped address and covers exactly count*size bytes |
| Env.MapPhysicalMemoryCount | rust/src/env.rs:128-141 | a mapping at an address aligned for T yields exactly `count` elements; a misaligned non-empty one hits the panic |
| Env.MapPhysicalMemoryZeroSized | rust/src/env.rs:135-139 | a zero-sized T yields an empty view |
| Env.PagemapOffset | rust/src/env.rs:147-148 | the pagemap entry of an address is 8-byte aligned and indexed by its page number |
| Env.ReadEntry | rust/src/env.rs:151-156 | reading the entry succeeds exactly when the pagemap holds 8 bytes at that offset |
| Env.FrameAddress | rust/src/env.rs:166-167 | the physical address lies in the given frame, at the virtual address's offset within its page |
| Env.TranslateSpec | rust/src/env.rs:157-167 | translation fails with "not present" iff bit 63 is clear, with "not mapped" iff the frame number is 0; otherwise the address lies in that frame, at the page offset, never in frame 0 |
| Env.GetPhysicalAddress | rust/src/env.rs:143-169 | the pagemap read fails exactly when the entry is past the end of the file; otherwise the result is the translation through that entry |
| IxgbeAgent.RsBit | c/ixgbe/agent.h:109 | the RS bit is either absent or exactly IXGBE_TX_METADATA_RS |
| IxgbeAgent.TxMetadataFields | c/ixgbe/agent.h:111 | transmit metadata carries the length in its low 16 bits, always has EOP and IFCS, and has RS exactly when it was asked for |
| IxgbeAgent.EarliestFromMinimal | c/ixgbe/agent.h:117-127 | the search holds a head at minimal 32-bit wrapped distance from the delimiter, with ties going to the later output; with no outputs it holds the delimiter |
| IxgbeAgent.RecycleWrites | c/ixgbe/agent.h:109-130 | the receive tail is written once on every 64th descriptor and never otherwise, with the earliest transmit head modulo the ring size |
| IxgbeAgent.Zeros | c/ixgbe/agent.h:112 | the output lengths are reset to 0, one per output |
| IxgbeAgent.ProcessPacket | c/ixgbe/agent.h:99-130 | one iteration keeps the agent's shape and moves the delimiter one step round the ring |
| IxgbeAgent.ProcessPacketEffect | c/ixgbe/agent.h:105-130 | one iteration stores the handled packet, programs descriptor d of every ring from that output's length and the RS bit, resets the outputs, and appends the receive-tail write iff RS was set |
| IxgbeAgent.ProcessPacketKeepsOthers | c/ixgbe/agent.h:110-113 | an iteration changes no descriptor other than the one at the delimiter |
| IxgbeAgent.RunLoop | c/ixgbe/agent.h:99-103 | the loop keeps the agent's shape and processes at most 8 packets |
| IxgbeAgent.TransmitTailWrites | c/ixgbe/agent.h:132-136 | the flush writes the delimiter to the transmit tail of each output, in order |
| IxgbeAgent.LaterIsModular | c/ixgbe/agent.h:115 | k steps round the ring from d is (d + k) modulo 256 |
| IxgbeAgent.ReachedIsDistance | c/ixgbe/agent.h:115 | within one turn, a descriptor is among the k from d exactly when it is fewer than k places after d |
| IxgbeAgent.DistanceStep | c/ixgbe/agent.h:115 | after the delimiter steps, any other descriptor is one place closer |
| IxgbeAgent.RunLoopDelimiter | c/ixgbe/agent.h:99-115 | the loop advances the delimiter one step per processed packet |
| IxgbeAgent.RunLoopEndsOnNotDone | c/ixgbe/agent.h:99-103 | the loop stops before 8 packets only at a descriptor whose DD bit is clear |
| IxgbeAgent.RunLoopUntouched | c/ixgbe/agent.h:99-115 | the loop changes no descriptor it has not reached |
| IxgbeAgent.RunLoopProcessedWereDone | c/ixgbe/agent.h:99-103 | every descriptor the loop reached had its DD bit set |
| IxgbeAgent.RunLoopStopsAtFirstNotDone | c/ixgbe/agent.h:90-130 | one run processes at most 8 consecutive done descriptors from the delimiter, stops early only at the first one not done, leaves the delimiter after the last one processed, and touches no descriptor it has not reached |
| IxgbeAgent.RunLoopWritesOnlyReceiveTail | c/ixgbe/agent.h:99-130 | the loop only appends to the log, and only receive-tail writes |
| IxgbeAgent.RunWritesTransmitTailsIffProcessed | c/ixgbe/agent.h:132-136 | ixgbe_run writes every output's transmit tail with the new delimiter iff it processed a packet, which it does iff the descriptor at the delimiter is done; otherwise it writes no transmit tail |
| IxgbeAgent.RingsOf | c/ixgbe/agent.h:26 | the rings as values have the arrays' shape and contents |
| IxgbeAgent.HeadsOf | c/ixgbe/agent.h:121 | the transmit heads as the CPU reads them, one per output |
| IxgbeAgent.Agent.ValidIsShaped | c/ixgbe/agent.h:23-36 | an initialized agent has 256 buffers and one ring and one output length per output |
| IxgbeAgent.Agent.Uninitialized | c/ixgbe/agent.h:23-36 | the caller's struct before init has an empty tail log |
| IxgbeAgent.Agent.Init | c/ixgbe/agent.h:39-81 | init succeeds exactly when there is at least one output and every output and the input are accepted; it then has a valid agent with delimiter 0 and every descriptor of every ring pointing at its buffer's physical address |
| IxgbeAgent.Agent.ProgramTransmit | c/ixgbe/agent.h:109-113 | descriptor d of every ring gets that output's transmit metadata and the output lengths become 0 |
| IxgbeAgent.Agent.EarliestHead | c/ixgbe/agent.h:117-127 | the loop computes the earliest transmit head of EarliestTransmitHead |
| IxgbeAgent.Agent.StoreHandled | c/ixgbe/agent.h:105-107 | the handled packet goes back into its buffer and the output lengths become the handler's |
| IxgbeAgent.Agent.ProcessOne | c/ixgbe/agent.h:100-130 | one iteration on the arrays is ProcessPacket on the agent's state |
| IxgbeAgent.Agent.FlushTransmitTails | c/ixgbe/agent.h:132-136 | the flush appends one transmit-tail write per output, with the delimiter |
| IxgbeAgent.Agent.RunStep | c/ixgbe/agent.h:99-130 | one turn of the loop stops, changing nothing, exactly when the descriptor at the delimiter is not done, and otherwise performs ProcessPacket; either way the rest of RunLoop is preserved |
| IxgbeAgent.Agent.ForwardBatch | c/ixgbe/agent.h:98-131 | the loop on the arrays ends in the state and with the packet count RunLoop gives |
| IxgbeAgent.ProcessedPrefixWasDone | c/ixgbe/agent.h:99-103 | every descriptor among the processed ones from the delimiter was done |
| IxgbeAgent.UnprocessedSuffixUntouched | c/ixgbe/agent.h:99-115 | the descriptors from the first unprocessed one to the end of the turn are unchanged on every ring |
| IxgbeAgent.Agent.Run | c/ixgbe/agent.h:90-137 | ixgbe_run on the arrays is RunSpec on the agent's state and keeps the agent valid |
| Forwarder.Split | rust/src/main.rs:23 | splitting yields at least one piece |
| Forwarder.SplitCount | rust/src/main.rs:23 | splitting yields one more piece than there are ':' and '.' separators |
| Forwarder.SplitPiecesHaveNoSeparator | rust/src/main.rs:23 | no piece contains a separator |
| Forwarder.SplitAfterPiece | rust/src/main.rs:23 | a separator-free piece followed by a separator and a rest splits into that piece and the rest's pieces |
| Forwarder.SplitSeparatorsInterchangeable | rust/src/main.rs:23 | ':' and '.' are interchangeable for splitting |
| Forwarder.SplitJoin | rust/src/main.rs:23 | joining the pieces with the separators of the string, in order, gives back the string |
| Forwarder.JoinSplit | rust/src/main.rs:23 | separator-free pieces joined by separators split back into exactly those pieces |
| Forwarder.HexDigitValue | rust/src/main.rs:28-30 | a hexadecimal digit of either case has a value below 16 |
| Forwarder.HexDigit | rust/src/main.rs:28-30 | the digit written for a value below 16 reads back as that value |
| Forwarder.Hex2 | rust/src/main.rs:28-30 | a byte is written as two characters, neither a separator |
| Forwarder.FromStrRadix16Hex2 | rust/src/main.rs:28-30 | from_str_radix(_, 16) reads a byte's two hexadecimal digits back as that byte |
| Forwarder.LeadingZero | rust/src/main.rs:28-30 | a leading zero does not change what from_str_radix reads |
| Forwarder.DigitsValue | rust/src/main.rs:28-30 | the digit loop succeeds iff every character is a hex digit and the value stays below 256, and it then yields that number |
| Forwarder.FromStrRadix16Value | rust/src/main.rs:28-30 | from_str_radix(s, 16) for u8 succeeds iff s, less one optional '+', is a non-empty string of hex digits below 256, and then yields its value |
| Forwarder.ParsePciAddress | rust/src/main.rs:22-32 | the part-count panic happens exactly when the address does not have two separators |
| Forwarder.ParsePciAddressSuccess | rust/src/main.rs:27-31 | a parsed address is three parts that read as bus, device and function |
| Forwarder.ParsePciAddressRoundTrip | rust/src/main.rs:22-32 | "bb:dd.ff" written from an address parses back to that address |
| Forwarder.ParsePciAddressSeparatorsInterchangeable | rust/src/main.rs:23 | either separator may stand in either place: "b.d:f" parses as "b:d.f" does |
| Forwarder.ProcessedPacketBytes | rust/src/main.rs:36-47 | proc keeps the length, sets byte 5 to 1 and bytes 0-4 and 6-11 to 0, keeps every later byte, and is idempotent |
| Forwarder.WriteHeader | rust/src/main.rs:36-47 | the twelve writes turn the packet into ProcessedPacket of it |
| Forwarder.Proc | rust/src/main.rs:34-49 | proc rewrites the header and sets output 0's length to the packet length, leaving the other outputs alone |
| TinyNfPacketData.WriteAllowedIsConservative | csharp/TinyNF.Unsafe/PacketData.cs:30-46 | an accepted write stays inside the buffer, and the only fitting position rejected is Size - width |
| TinyNfPacketData.WrittenBytes | csharp/TinyNF.Unsafe/PacketData.cs:30-46 | a write keeps the length, puts the bytes at the index, and changes no other byte |
| TinyNfPacketData.WrittenValueReadsBack | csharp/TinyNF.Unsafe/PacketData.cs:30-46 | the bytes written read back, in little-endian order, as the value |
| TinyNfPacketData.PacketData.constructor | csharp/TinyNF.Unsafe/PacketData.cs:14-16 | a PacketData is 2048 zero bytes |
| TinyNfPacketData.PacketData.Get | csharp/TinyNF.Unsafe/PacketData.cs:18-28 | reading through the indexer throws iff index >= 2048 and otherwise yields that byte |
| TinyNfPacketData.PacketData.Set | csharp/TinyNF.Unsafe/PacketData.cs:18-28 | writing through the indexer throws iff index >= 2048 and otherwise changes exactly that byte |
| TinyNfPacketData.PacketData.WriteUnaligned | csharp/TinyNF.Unsafe/PacketData.cs:30-46 | the bytes are written from the index on, and nothing else changes |
| TinyNfPacketData.PacketData.Write32 | csharp/TinyNF.Unsafe/PacketData.cs:30-37 | Write32 throws iff index >= 2044; otherwise it writes the value's four little-endian bytes at the index; a throw changes nothing |
| TinyNfPacketData.PacketData.Write64 | csharp/TinyNF.Unsafe/PacketData.cs:39-46 | Write64 throws iff index >= 2040; otherwise it writes the value's eight little-endian bytes at the index; a throw changes nothing |
| TinyNfArray256Array.Array256Allocator.Allocate | csharp/TinyNF.Unsafe/Array256Array.cs:21 | each block handed out is new and has 256 elements |
| TinyNfArray256Array.Array256Array.constructor | csharp/TinyNF.Unsafe/Array256Array.cs:14-23 | the array has `length` slots, each holding a new 256-element block, no two the same |
| TinyNfArray256Array.Array256Array.Get | csharp/TinyNF.Unsafe/Array256Array.cs:25-31 | the getter throws iff n is out of range, and otherwise yields a 256-element view sharing slot n's block |
| TinyNfArray256Array.Array256Array.Set | csharp/TinyNF.Unsafe/Array256Array.cs:32-36 | the setter throws iff n is out of range; otherwise slot n refers to the value's block, which may also be in another slot, and no other slot changes; every slot still holds a 256-element block |
| TinyNfArray256Array.Array256Array.GetEnumerator | csharp/TinyNF.Unsafe/Array256Array.cs:39-42 | a new enumerator over this array, positioned at -1 |
| TinyNfArray256Array.Enumerator.constructor | csharp/TinyNF.Unsafe/Array256Array.cs:49-53 | an enumerator starts before the first slot |
| TinyNfArray256Array.Enumerator.MoveNext | csharp/TinyNF.Unsafe/Array256Array.cs:63-67 | MoveNext advances by one and reports whether the position is still a slot |
| TinyNfArray256Array.Enumerator.Current | csharp/TinyNF.Unsafe/Array256Array.cs:55-61 | Current throws iff the position is not a slot, and otherwise yields that slot's block |
| TinyNfArray256Array.Enumerate | csharp/TinyNF.Unsafe/Array256Array.cs:39-67 | a foreach sees exactly Length views, those of slots 0, 1, ... in order |

## Left out

- **I/O and the operating system.** The model leaves out:
  - `ioperm` and the `Port` accesses (modelled as a trace of port accesses);
  - `mmap` of the hugepage (its address is the constructor's parameter);
  - opening and mapping `/dev/mem`, and the `MAPS` list (the mapping's address, or its failure, is an input);
  - `/proc/self/pagemap` (its content is an input);
  - `sysconf` (the page size is an input);
  - `sleep`.
- **External functions.** `tn_mem_allocate`, `tn_mem_virt_to_phys`, `ixgbe_device_add_output` and `ixgbe_device_add_input` are not modelled. Their results are `Init`'s inputs. The tail-register addresses they return are not kept; a tail write names its register instead.
- **Constants from device.h.** device.h is not part of this model. These values are assumed:
  - `IXGBE_RING_SIZE` is 256;
  - the descriptor flags take their bit positions from the 82599 legacy descriptor formats: DD is bit 32, EOP bit 24, IFCS bit 25 and RS bit 27.
- **The NIC.** The device's own behaviour and its concurrency with the CPU are not modelled. The DD bits and transmit heads are the values present at the call.
- **The handler.** The handler is any function that keeps the number of outputs. Its writes through the packet pointer are modelled as returning the new packet. Aliasing between the packet and other state is not modelled.
- **Byte order.** A little-endian host (x86) is assumed. The CPU/LE conversions and `from_ne_bytes` are therefore identity and little-endian.
- **Widths.** `count * size_of::<T>()` and the cursor are unbounded naturals. A `usize` overflow of count*size is not modelled.
- **The rest of main.rs.** `main`, `run` and `run_const` are left out. They are endless loops over hardware setup.
- **Context files.** csharp/TinyNF.Environment/IEnvironment.cs and os/stub/cpu.c are not part of this model.
- **C#.** `Array256<T>`'s own constructor and `Array256Allocator<T>` are not part of this model. `Allocate` stands for the allocator: it hands out a new 256-element block.
- TinyNfArray256Array.Array256Array.Set: the `AsPointer` pinning is modelled as keeping the block's reference.
- TinyNfArray256Array.Array256Array.constructor: takes a `nat` length. The `OverflowException` C# throws for a negative length is not modelled.
- TinyNfArray256Array.Enumerator.MoveNext: `Index` is an unbounded `int`. The wrap of C#'s `Index++` at `int.MaxValue` is not modelled; a slot array never has that many slots.
- Env.FrameAddress: `pfn * page_size` is an unbounded natural. The `usize` wrap of that product is not modelled; frame numbers are at most 55 bits.
- Env.MapPhysicalMemory: the physical address is not a parameter. The mapped address is an input, so the model does not tie a misaligned mapping to an `addr` that is not a multiple of T's alignment modulo the page size.
- TinyNfPacketData.PacketData: the C# `PacketData` is a value type copied on assignment. The model makes it a class, so two names may share one buffer where C# would hold two copies. Copies made by assignment are not modelled.
- Forwarder.Proc: requires a non-empty outputs array. In Rust, N = 0 would panic on `output_lengths[0]`, and the forwarder never uses N = 0. The packet buffer is any array of at least 12 bytes; the Rust driver's PACKET_SIZE comes from ixgbe/device.rs, which is not part of this model.
- Forwarder.FromStrRadix16: follows the error precedence of the current core library, where a non-digit is reported before an overflow at the same position. A leading '+' alone is `InvalidDigit`.
- Env.PciTargetWord: its field layout is stated only for device < 32 and function < 8 (`PciTargetWordFields`). Larger values overlap neighbouring fields in the word, and the model computes that overlap as the code does, without a lemma.
- IxgbeAgent.KeepsOutputCount: handlers that change the number of outputs cannot occur in C, where the outputs array has a fixed size. They are excluded by this precondition.
