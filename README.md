# Packet router lab: checksum and packet generator

This project models the core of the INF3610 packet router lab, `Lab2/src/routeur.c` and `routeur.h`. That core is made of three parts.

- **`computeCRC`** is the Internet checksum of section 4.1 of RFC 1071. It reads the buffer as 16-bit words and adds them into a 32-bit `unsigned int`. It folds the carries back twice and returns the one's complement of the low 16 bits. **`computePacketCRC`** runs it over a whole `Packet`.
- **The data model of `routeur.h`**: the four destination bands, the four reject bands for sources, the `PACKET_TYPE` enumeration, the `Packet` record and its 64-byte memory layout, and the four global packet counters.
- **`TaskGeneratePacket`**. It builds packets from `rand()` draws: even source and destination addresses, a type, a checksum (one packet in ten gets the bad value 1234), a payload stamped with the creation count, and then a post to the input queue. It alternates between generation phases and quiet phases.

The Dafny modules follow that structure.

| file | module | what it holds |
|---|---|---|
| `machine.dfy` | `Machine` | the C integer widths of the 32-bit target, `rand()`'s range, `Option` |
| `checksum.dfy` | `InternetChecksum` | `Checksum`, the specification; `ComputeCrc`, the loop over an `array`; the one's-complement reference `OnesSum`; properties of the checksum |
| `router.dfy` | `Router` | bands, routing, packet types, the `Packet` record and its little-endian byte image, the global packet counters (`Counters`) |
| `packet_crc.dfy` | `PacketCheck` | `ComputePacketCrc`; what it means for the `crc` field to hold a checksum that checks |
| `generator.dfy` | `Generator` | the generator's iteration as the pure step `Next` and the run `Run`; the generator as the class `PacketGenerator` over `Counters` and a `PacketQueue`; the two findings below |

TaskGeneratePacket is written twice:
- `PacketGenerator.Step` and `PacketGenerator.Loop` change the objects in place.
- Their `ensures` tie the new state to `Next` and `Run` on the old state.

The properties are lemmas about `Next` and `Run`. They cover how the queue grows, the stamps, and how long a phase lasts.

The `rand()` results a loop iteration consumes are an input (`Draws`); so is the 64 bytes of stack memory that the source's checksum actually reads. The code sets `shouldSlowThingsDown` to `true` (routeur.c:168). The comment above TaskGeneratePacket says the lab is evaluated with `false`. The model follows the code: `SHOULD_SLOW_THINGS_DOWN` is `true`, and `Next`, `Run` and `PacketGenerator` take the mode as a parameter, so both modes are covered.

## Model

| member | source | states |
|---|---|---|
| `InternetChecksum.Words` | 3610/1796174_1932759/Lab2/Lab2.sdk/Lab2/src/routeur.c:49-58 | the 16-bit words `*w++` reads: byte pairs read little-endian, an odd last byte as the low half of a zero-padded word |
| `InternetChecksum.Fold` | 3610/1796174_1932759/Lab2/Lab2.sdk/Lab2/src/routeur.c:61-62 | the two carry folds leave, in the low 16 bits, the end-around-carry residue of the 32-bit accumulator (0 for 0, otherwise the value modulo 0xFFFF taken in 1..0xFFFF) |
| `InternetChecksum.Complement` | 3610/1796174_1932759/Lab2/Lab2.sdk/Lab2/src/routeur.c:64-65 | `~sum` stored in a `uint16_t`, defined bit by bit as the inversion of the low 16 bits of `sum`; inverting every bit is proved to give the value that adds to those 16 bits to make 0xFFFF |
| `InternetChecksum.InvertIsSubtraction` | 3610/1796174_1932759/Lab2/Lab2.sdk/Lab2/src/routeur.c:64-65 | inverting every bit of a value of a given width subtracts it from the all-ones value of that width, by induction on the width |
| `InternetChecksum.Checksum` | 3610/1796174_1932759/Lab2/Lab2.sdk/Lab2/src/routeur.c:44-66 | the value computeCRC returns for a byte sequence; for buffers of at most 128 KiB (0x2_0000 bytes) it is 0xFFFF minus the end-around-carry residue of the plain sum of the words |
| `InternetChecksum.ComputeCrc` | 3610/1796174_1932759/Lab2/Lab2.sdk/Lab2/src/routeur.c:44-66 | computeCRC on an array of bytes returns a value below 0x10000 equal to `Checksum` of the first `nleft` bytes (none when `nleft` is not positive) |
| `InternetChecksum.AddWords` | 3610/1796174_1932759/Lab2/Lab2.sdk/Lab2/src/routeur.c:48-52 | the loop stops with 0 or 1 byte left (none read when `nleft` < 0), having added the words of the bytes read into a 32-bit accumulator that wraps |
| `InternetChecksum.FoldComplement` | 3610/1796174_1932759/Lab2/Lab2.sdk/Lab2/src/routeur.c:60-65 | the two carry folds and the complement compute `Complement(Fold(sum))` |
| `InternetChecksum.ComputeCrcTwice` | 3610/1796174_1932759/Lab2/Lab2.sdk/Lab2/src/routeur.c:44-66 | computeCRC is deterministic and leaves the buffer alone: two calls agree |
| `InternetChecksum.AccumulateWord` | 3610/1796174_1932759/Lab2/Lab2.sdk/Lab2/src/routeur.c:49-52 | one loop iteration adds exactly the next little-endian word to the plain sum, and the wrapping `sum += *w++` keeps the accumulator equal to that plain sum modulo 2^32 |
| `InternetChecksum.AccumulateLastByte` | 3610/1796174_1932759/Lab2/Lab2.sdk/Lab2/src/routeur.c:55-58 | a trailing odd byte is added as the low byte of a zero-padded word |
| `InternetChecksum.WordsLength` | 3610/1796174_1932759/Lab2/Lab2.sdk/Lab2/src/routeur.c:49-58 | a buffer of n bytes is read as ceil(n/2) words |
| `InternetChecksum.SumBound` | 3610/1796174_1932759/Lab2/Lab2.sdk/Lab2/src/routeur.c:45-52 | for buffers of up to 128 KiB the 32-bit accumulator never wraps |
| `InternetChecksum.OnesAdd` | 3610/1796174_1932759/Lab2/Lab2.sdk/Lab2/src/routeur.c:61-62 | end-around-carry addition gives 0 exactly when both operands are 0 |
| `InternetChecksum.ResidueFullIff` | 3610/1796174_1932759/Lab2/Lab2.sdk/Lab2/src/routeur.c:64 | the residue is 0xFFFF (negative zero), so the complement is 0, exactly for positive multiples of 0xFFFF |
| `InternetChecksum.ResidueAdd` | 3610/1796174_1932759/Lab2/Lab2.sdk/Lab2/src/routeur.c:50-62 | adding a word to the plain sum is one end-around-carry addition on its residue |
| `InternetChecksum.OnesSumIsResidue` | 3610/1796174_1932759/Lab2/Lab2.sdk/Lab2/src/routeur.c:49-62 | the one's-complement sum of the words, added one by one, is the residue of their plain sum |
| `InternetChecksum.FoldIsOnesSum` | 3610/1796174_1932759/Lab2/Lab2.sdk/Lab2/src/routeur.c:60-62 | without wrap-around, the folds compute the one's-complement sum of the words |
| `InternetChecksum.ChecksumIsComplementedOnesSum` | 3610/1796174_1932759/Lab2/Lab2.sdk/Lab2/src/routeur.c:44-66 | for buffers of up to 128 KiB, computeCRC is 0xFFFF minus the one's-complement sum of the words, as RFC 1071 defines it |
| `InternetChecksum.ChecksumZeroIff` | 3610/1796174_1932759/Lab2/Lab2.sdk/Lab2/src/routeur.c:41-66 | "returns 0 if the check is correct": for buffers of at most 128 KiB (0x2_0000 bytes), computeCRC is 0 exactly when the sum of the words is a positive multiple of 0xFFFF |
| `InternetChecksum.ZeroPadding` | 3610/1796174_1932759/Lab2/Lab2.sdk/Lab2/src/routeur.c:55-58 | appending a zero byte to an odd-length buffer leaves the checksum unchanged |
| `InternetChecksum.SumPermutation` | 3610/1796174_1932759/Lab2/Lab2.sdk/Lab2/src/routeur.c:49-52 | words that are a permutation of each other have the same sum |
| `InternetChecksum.WordOrderIndependent` | 3610/1796174_1932759/Lab2/Lab2.sdk/Lab2/src/routeur.c:49-52 | the checksum depends only on the multiset of words, not on their order |
| `InternetChecksum.WordsUpdate` | 3610/1796174_1932759/Lab2/Lab2.sdk/Lab2/src/routeur.c:49-58 | changing byte k changes only word k/2, by the byte's change weighted 1 (low byte) or 0x100 (high byte) |
| `InternetChecksum.SingleByteErrorDetected` | 3610/1796174_1932759/Lab2/Lab2.sdk/Lab2/src/routeur.c:44-66 | for buffers of at most 128 KiB (0x2_0000 bytes), a buffer that checks to 0 no longer does after any single byte changes |
| `Router.DestinationBandsPartition` | 3610/1796174_1932759/Lab2/Lab2.sdk/Lab2/src/routeur.h:30-37 | the four destination bands are non-empty, contiguous, pairwise disjoint and cover every 32-bit address |
| `Router.AscendingOrdered` | 3610/1796174_1932759/Lab2/Lab2.sdk/Lab2/src/routeur.h:30-47 | in a table of ascending bands every band lies wholly below every later one |
| `Router.ContiguousCovers` | 3610/1796174_1932759/Lab2/Lab2.sdk/Lab2/src/routeur.h:30-37 | contiguous bands cover every address from the first low to the last high |
| `Router.RouteOf` | 3610/1796174_1932759/Lab2/Lab2.sdk/Lab2/src/routeur.h:30-37 | every destination address has a route whose band holds it, and that route is unique |
| `Router.RejectBandsDisjoint` | 3610/1796174_1932759/Lab2/Lab2.sdk/Lab2/src/routeur.h:40-47 | the four reject bands are non-empty, ascending and pairwise disjoint |
| `Router.InRejectBand` | 3610/1796174_1932759/Lab2/Lab2.sdk/Lab2/src/routeur.h:40-47 | a source lies in the reject table exactly when it lies between one of the four REJECT_LOWn/REJECT_HIGHn pairs |
| `Router.RejectBandOf` | 3610/1796174_1932759/Lab2/Lab2.sdk/Lab2/src/routeur.h:40-47 | a source is found in a reject band exactly when it lies in one, and that band is the only one holding it |
| `Router.Reject1Member` | 3610/1796174_1932759/Lab2/Lab2.sdk/Lab2/src/routeur.h:40-41 | 0x15000000 is rejected by band 1 and by no other |
| `Router.BroadcastMember` | 3610/1796174_1932759/Lab2/Lab2.sdk/Lab2/src/routeur.h:36-37 | 0xD0000000 is routed to broadcast |
| `Router.TypeOfCode` | 3610/1796174_1932759/Lab2/Lab2.sdk/Lab2/src/routeur.h:49-51 | an enum value names a packet type exactly when it is below NB_PACKET_TYPE, and then that type has that value |
| `Router.PacketTypeCodes` | 3610/1796174_1932759/Lab2/Lab2.sdk/Lab2/src/routeur.h:49-51 | the three types have distinct values below NB_PACKET_TYPE, and the sentinel is not a type |
| `Router.Fields` | 3610/1796174_1932759/Lab2/Lab2.sdk/Lab2/src/routeur.h:53-59 | the record is 16 words: src, dst, type, crc and the 12 data words, in declaration order |
| `Router.LittleEndian` | 3610/1796174_1932759/Lab2/Lab2.sdk/Lab2/src/routeur.h:54-58 | a word is stored as four bytes whose little-endian value is the word |
| `Router.EncodeAt` | 3610/1796174_1932759/Lab2/Lab2.sdk/Lab2/src/routeur.h:53-59 | word k of the record occupies bytes 4k..4k+4 |
| `Router.PacketLayout` | 3610/1796174_1932759/Lab2/Lab2.sdk/Lab2/src/routeur.h:53-59 | sizeof(Packet) is 64, and `crc` lies at the 16-bit-aligned byte offset 12 |
| `PacketCheck.ComputePacketCrc` | 3610/1796174_1932759/Lab2/Lab2.sdk/Lab2/src/routeur.c:75-77 | computePacketCRC is the checksum of the record's 64 bytes, 0 exactly when their 16-bit sum is a positive multiple of 0xFFFF |
| `PacketCheck.WordsOfEncode` | 3610/1796174_1932759/Lab2/Lab2.sdk/Lab2/src/routeur.c:76 | the 16-bit words computeCRC reads from the record are the low and high halves of its 32-bit fields |
| `PacketCheck.LittleEndianWords` | 3610/1796174_1932759/Lab2/Lab2.sdk/Lab2/src/routeur.c:76 | a 32-bit field is read as its low half, then its high half |
| `PacketCheck.PacketWordSum` | 3610/1796174_1932759/Lab2/Lab2.sdk/Lab2/src/routeur.h:53-59 | the 16-bit sum of the record in memory is the sum of its fields' halves |
| `PacketCheck.PayloadWordSum` | 3610/1796174_1932759/Lab2/Lab2.sdk/Lab2/src/routeur.h:58 | replacing a data word changes the record's sum by the difference of the two words' halves |
| `PacketCheck.PacketSum` | 3610/1796174_1932759/Lab2/Lab2.sdk/Lab2/src/routeur.h:57 | the record's sum is the sum with `crc` zeroed plus the halves of `crc` |
| `PacketCheck.PacketCrcIsOnesComplement` | 3610/1796174_1932759/Lab2/Lab2.sdk/Lab2/src/routeur.c:75-77 | a record cannot overflow the accumulator, so computePacketCRC is 0xFFFF minus the one's-complement sum of its words |
| `PacketCheck.PacketZeroIff` | 3610/1796174_1932759/Lab2/Lab2.sdk/Lab2/src/routeur.c:71-77 | a record checks to 0 exactly when its 16-bit sum is a positive multiple of 0xFFFF |
| `PacketCheck.CheckIff` | 3610/1796174_1932759/Lab2/Lab2.sdk/Lab2/src/routeur.c:61-65 | a 16-bit value completes a sum to negative zero exactly when it is the complement of the rest's residue, or 0xFFFF when that complement is 0 |
| `PacketCheck.CheckZeroIff` | 3610/1796174_1932759/Lab2/Lab2.sdk/Lab2/src/routeur.c:71-77 | with a 16-bit `crc`, a record checks to 0 exactly when `crc` is the checksum computed with the field zeroed (or 0xFFFF in place of 0) |
| `PacketCheck.StoredCrcChecks` | 3610/1796174_1932759/Lab2/Lab2.sdk/Lab2/src/routeur.c:179-183 | round trip: zero `crc`, store the computed checksum in it, and the record checks to 0 |
| `PacketCheck.NotBothCheck` | 3610/1796174_1932759/Lab2/Lab2.sdk/Lab2/src/routeur.c:71-77 | one `crc` value cannot make two records check when the rest of their sums differ by one |
| `Generator.Scale` | 3610/1796174_1932759/Lab2/Lab2.sdk/Lab2/src/routeur.c:174-175 | `rand() * (UINT32_MAX / RAND_MAX)` is twice the draw, so every address is even |
| `Generator.TypeOfDraw` | 3610/1796174_1932759/Lab2/Lab2.sdk/Lab2/src/routeur.c:176 | the drawn type's enum value is the draw modulo NB_PACKET_TYPE |
| `Generator.BadCrcDrawn` | 3610/1796174_1932759/Lab2/Lab2.sdk/Lab2/src/routeur.c:180 | the lottery draw marks a packet for the bad checksum when it is 9 modulo 10 |
| `Generator.Body` | 3610/1796174_1932759/Lab2/Lab2.sdk/Lab2/src/routeur.c:172-187 | the packet before its checksum is set: scaled addresses, the drawn type, `crc` 0, the drawn payload with `data[0]` replaced by the count |
| `Generator.Filled` | 3610/1796174_1932759/Lab2/Lab2.sdk/Lab2/src/routeur.c:179-187 | the intended packet: the body with 1234 in `crc` when the lottery says so, otherwise the checksum of the filled body with `crc` zeroed |
| `Generator.NewPacket` | 3610/1796174_1932759/Lab2/Lab2.sdk/Lab2/src/routeur.c:172-187 | building a packet (payload filled, `data[0]` stamped, then the checksum set) gives `Filled` |
| `Generator.FilledPacket` | 3610/1796174_1932759/Lab2/Lab2.sdk/Lab2/src/routeur.c:172-187 | a generated packet has even addresses, the drawn type, the stamp in `data[0]` and the other data as drawn; it checks to 0 unless it lost the 1234 lottery, and then it checks only if 1234 is its correct checksum |
| `Generator.Post` | 3610/1796174_1932759/Lab2/Lab2.sdk/Lab2/src/routeur.c:200-206 | OSQPost never takes the queue beyond its 1024 entries, and the packet is freed exactly when the queue is left unchanged; that the posted packet is appended is stated by `QueueStep` and `RunQueue` |
| `Generator.EndsPhase` | 3610/1796174_1932759/Lab2/Lab2.sdk/Lab2/src/routeur.c:213 | the corrected end-of-phase test `Next` uses: the count is a multiple of the phase size, and a phase of size 0 ends after its first packet |
| `Generator.Initial` | 3610/1796174_1932759/Lab2/Lab2.sdk/Lab2/src/routeur.c:165-169 | the state before the first iteration is a generation phase of size `rand() % 250`, below 250, and keeps the state invariant whenever the counter and queue do |
| `Generator.Next` | 3610/1796174_1932759/Lab2/Lab2.sdk/Lab2/src/routeur.c:170-225 | one iteration counts at most one packet |
| `Generator.NextStep` | 3610/1796174_1932759/Lab2/Lab2.sdk/Lab2/src/routeur.c:170-225 | each iteration keeps the state invariant; a generation step counts one packet built from its draws and stamped with the count before the increment; a quiet step changes only the phase, whose new size is below 250 |
| `Generator.PhaseTestAsWritten` | 3610/1796174_1932759/Lab2/Lab2.sdk/Lab2/src/routeur.c:213 | the source's test divides by zero exactly when the phase size is 0, and otherwise agrees with `EndsPhase` |
| `Generator.ZeroPhaseDividesByZero` | 3610/1796174_1932759/Lab2/Lab2.sdk/Lab2/src/routeur.c:219-221 | a quiet-step draw that is a multiple of 250 gives a phase of size 0, whose first fast-mode test divides by zero |
| `Generator.Run` | 3610/1796174_1932759/Lab2/Lab2.sdk/Lab2/src/routeur.c:170-226 | n iterations yield n events and count at most n packets |
| `Generator.QueueStep` | 3610/1796174_1932759/Lab2/Lab2.sdk/Lab2/src/routeur.c:200-206 | an iteration grows the queue by its posted packet only, and frees a packet only when the queue is full |
| `Generator.RunQueue` | 3610/1796174_1932759/Lab2/Lab2.sdk/Lab2/src/routeur.c:200-206 | over any run the queue is the old queue followed by exactly the posted packets in order, within capacity, and full whenever a packet was freed |
| `Generator.SlowRun` | 3610/1796174_1932759/Lab2/Lab2.sdk/Lab2/src/routeur.c:185-189 | in slow mode every iteration generates: after n iterations n more packets were counted, the i-th built from the i-th draws and stamped with the start count plus i |
| `Generator.ConfiguredTaskGenerates` | 3610/1796174_1932759/Lab2/Lab2.sdk/Lab2/src/routeur.c:164-189 | the generator as configured generates only: after n iterations it has made n packets numbered 0..n-1, and its queue holds exactly the posted ones in order |
| `Generator.PacketsLeft` | 3610/1796174_1932759/Lab2/Lab2.sdk/Lab2/src/routeur.c:210-217 | a fast-mode phase of size q has between 1 and max(q, 1) packets left |
| `Generator.FastPhaseLength` | 3610/1796174_1932759/Lab2/Lab2.sdk/Lab2/src/routeur.c:210-217 | in fast mode a phase goes quiet exactly after `PacketsLeft` packets, and generates in every iteration until then |
| `Generator.PhaseEnds` | 3610/1796174_1932759/Lab2/Lab2.sdk/Lab2/src/routeur.c:213 | the end-of-phase test after the n-th packet holds exactly when n is the number of packets the phase had left |
| `Generator.PhaseArith` | 3610/1796174_1932759/Lab2/Lab2.sdk/Lab2/src/routeur.c:213 | within one round of q, the count reaches a multiple of q exactly when the round's last packet is made |
| `Generator.PacketQueue.constructor` | 3610/1796174_1932759/Lab2/Lab2.sdk/Lab2/src/routeur.c:136 | the input queue starts empty with the given capacity (1024 entries in `inputMsg`) |
| `Generator.PacketQueue.Post` | 3610/1796174_1932759/Lab2/Lab2.sdk/Lab2/src/routeur.c:200-206 | OSQPost appends exactly when there is room and otherwise reports the queue full, leaving it unchanged |
| `Router.Counters.constructor` | 3610/1796174_1932759/Lab2/Lab2.sdk/Lab2/src/routeur.h:119-122 | the four packet counters start at zero |
| `Generator.PacketGenerator.constructor` | 3610/1796174_1932759/Lab2/Lab2.sdk/Lab2/src/routeur.c:165-169 | the generator starts in a generation phase whose size is the first draw modulo 250 |
| `Generator.PacketGenerator.Step` | 3610/1796174_1932759/Lab2/Lab2.sdk/Lab2/src/routeur.c:171-225 | one iteration on the objects is `Next` on their state; the state invariant holds and the other three counters are unchanged |
| `Generator.PacketGenerator.Loop` | 3610/1796174_1932759/Lab2/Lab2.sdk/Lab2/src/routeur.c:170-226 | n iterations on the objects are `Run` on their state, the state invariant holds, and the three counters the generator does not own keep their values |
| `Generator.AsWrittenPacket` | 3610/1796174_1932759/Lab2/Lab2.sdk/Lab2/src/routeur.c:179-187 | the packet as routeur.c builds it: the intended body, with 1234 in `crc` when the lottery says so and otherwise the checksum of the 64 stack bytes at the pointer variable |
| `Generator.AsWrittenCrcMissesPayload` | 3610/1796174_1932759/Lab2/Lab2.sdk/Lab2/src/routeur.c:183-187 | as written, the stored checksum ignores the packet: of two packets whose data word 1 differs by one, at least one fails the check whatever the stack held |
| `Generator.PayloadIncrement` | 3610/1796174_1932759/Lab2/Lab2.sdk/Lab2/src/routeur.c:185-187 | drawing data word 1 as an even value plus one adds exactly one to the packet's 16-bit sum |

## Left out

- The interrupt handlers, `main`, `create_tasks` and `create_events`, and the tasks other than TaskGeneratePacket. These tasks are routing, statistics and output. Most of them are not written in the source. Their priorities, semaphores and mutexes are left out too.
- Router.RouteOf: the routing task that would use the destination bands is not written in the source, so `RouteOf` is modelled from the band constants alone.
- Router.RejectBandOf: the same holds for the reject bands; no written code tests a source against them.
- `OSTimeDlyHMSM` delays, including the extra `rand() % 600` draw in slow mode. Time is not modelled, and a draw whose only use is a delay does not affect the state.
- `srand(42)` and the generator behind `rand()`: the draws are an input (`Draws`), any values in 0..RAND_MAX. So the lemmas hold for every seed, not just for the sequence that seed 42 produces.
- `xil_printf` output: it is not modelled.
- A `malloc` that fails (returning NULL). The source does not check for it; the model assumes allocation succeeds.
- `inputQ` is declared but never created in `create_events`. The model gives the generator a queue of the `inputMsg` capacity, 1024.
- `OSQPost` errors other than OS_ERR_Q_FULL are not modelled. In the source, the packet leaks in those cases.
- Generator.PacketQueue.Post: models OSQPost as a bounded FIFO; the kernel's message-queue internals and task wake-up are not modelled.
- Generator.PacketGenerator.Step: requires `nbPacketCrees < INT_MAX`, because incrementing a signed `int` past INT_MAX is undefined in C.
- Generator.PacketGenerator.Loop: requires the counter to stay at or below INT_MAX for the whole run, for the same reason.
- Generator.Next: requires the same bound.
- PacketCheck.CheckZeroIff: requires `crc` below 0x10000. A wider value adds its high half to the sum, and the stored value can then no longer be compared with a 16-bit checksum.
- `nbPacketTraites`, `nbPacketSourceRejete` and `nbPacketCRCRejete` are only changed by tasks that are not written. The model creates them at zero and proves that the generator leaves them alone, for one iteration (`Step`) and for a whole run (`Loop`).
- Aliasing of packets between tasks: packets are values here, so a packet posted to the queue and then changed by a consumer is not modelled. The leak of a packet on an `OSQPost` error other than OS_ERR_Q_FULL is left out with that error (see above).
- Byte order and alignment. The model takes the target to be little-endian (the 32-bit ARM core), with `unsigned int` of 32 bits and `uint16_t` reads aligned on the packet.
- Router.Fields: stores `type` as a 32-bit word, as with `-fno-short-enums`. A bare-metal ARM EABI build uses the smallest enum type by default. `type` would then be one byte followed by three padding bytes that are never written but that computeCRC reads. The model takes those bytes to be zero. The stored and the rechecked record share the same padding, so the round trip should hold for any fixed padding. That general case is not proved.

## Findings

| source | as written | input that shows it | evidently intended | confidence | as-written member | corrected member |
|---|---|---|---|---|---|---|
| 3610/1796174_1932759/Lab2/Lab2.sdk/Lab2/src/routeur.c:183 | `computeCRC((unsigned short*) (&packet), 64)` sums the 64 bytes starting at the local pointer variable `packet`, not the record it points to. It does so before `data` is filled (lines 185-187). The stored checksum is therefore unrelated to the packet. | any stack contents, with data word 1 drawn as an even value x in one packet and as x + 1 in another (all other draws equal, lottery not 9): at least one of the two fails the check | the checksum of the filled record with `crc` zeroed, computed after the payload and the stamp are written, so that every packet outside the 1234 lottery checks to 0 | high (not executed) | `Generator.AsWrittenPacket`, `Generator.AsWrittenCrcMissesPayload` | `Generator.FilledPacket` |
| 3610/1796174_1932759/Lab2/Lab2.sdk/Lab2/src/routeur.c:213 | `nbPacketCrees % packGenQty`, where `packGenQty = rand() % 250` (lines 169 and 221) can be 0, divides by zero | a quiet-phase draw that is a multiple of 250 (for example 0 or 250), followed by one packet in fast mode (`shouldSlowThingsDown` false); it is latent while the constant stays `true` | a phase of size 0 ends after its first packet (`EndsPhase`) | high (not executed) | `Generator.ZeroPhaseDividesByZero` | `Generator.FastPhaseLength` |
