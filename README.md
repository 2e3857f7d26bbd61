# SNTP time switch: a Dafny model of the firmware core

The firmware runs on an AVR microcontroller that shows up over USB as an Ethernet adapter. Behind that adapter it answers ARP, ICMP echo and its own UDP switching protocol. It sets its clock from an SNTP server and drives relays from a table of rules. This project models the parts of the firmware that compute, and proves what they promise:

- **The packet ring** (`PacketBuffer.c`, `PacketBuffer.h`, and the C++ draft `c++/Queue.cpp`, `c++/Packet.h`).
  - Modules `PacketState`, `RingChain`, `PacketBuffer` and `Queue`.
  - The ring is a class over an `array` of 16-bit words, one per slot. State words and payload share that storage, as they do in the C code.
  - The cursors `NextWriter`, `InputReader` and `OutputReader` are fields holding slot indices.
  - A ghost chain lists the record slots from `OutputReader` to `NextWriter`. The ring invariant `RingChain.Inv` says:
    - every record's successor is the next record of the chain, and the only `StartOver` mark is where the ring wraps;
    - records ascend on each side of the wrap, and the records before `InputReader` all carry the Output bit;
    - the last record, at `NextWriter`, is `EndOfRing`.
  - Every buffer operation is a method that keeps this invariant and states its new words and cursors. The readers' scans are specified by the first record where they stop.
- **The protocol stack** (`Lib/Ethernet.c`, `Lib/ARP.c`, `Lib/IP.c`, `Lib/ICMP.c`, `Lib/UDP.c`, `Lib/SNTP.c`, `Lib/ASCII.c`, and the variants `c++/net/ARP.c`, `c++/net/SNTP.c`).
  - Modules `LibEthernet`, `Arp`, `LibArp`, `CppArp`, `LibIp`, `LibIcmp`, `LibUdp`, `LibSntp`, `CppSntp`, `LibAscii` and `Checksum`.
  - Each layer is a method over the frame `array` of bytes. It is specified by reference functions that state the byte rewrites (`Splice` of a header into the frame), what the layer returns, and what it does to the ARP cache and the rule states.
  - Multi-byte protocol fields are read as network-order (big-endian) values.
  - The Internet checksum of RFC 1071 is modelled as the firmware computes it: little-endian words, end-around carry. It is related to the integer sum of the words.
- **The USB pre-check** (`net/PacketCheck.c` and the earlier variant `IPcheck.c`).
  - Modules `PacketCheck` and `IpCheck`.
  - The 24 bytes read from the endpoint register are an input sequence. Every byte read is stored to the receive buffer, and the length returned is a function of the frame.
- **Helpers and the rule engine** (`helper.h`, `resources.h`, `endianness.h`, `c++/endianness.h`, `timestamp.h`, `rules.c`).
  - Modules `Helper`, `Resources`, `Endianness`, `ByteSwapping`, `Timestamp` and `Rules`.
  - The rule engine is a class that holds the rule table, the rule states, the cached time of day, and the relay port registers (a map).
  - `checkRules` is proved against a function `Run`, and each callback against a function of the received bytes.

Modelling choices:
- Protocol constants are those of `resources.h`.
  - The switching protocol's port `UDP_PORT_AUTOMAT` is not defined in the files modelled. It is taken as `UDP_PORT`, 65432.
  - `NTP_OFFSET` is avr-libc's 3155673600 seconds, and `time_t` is a 32-bit unsigned value.
- The stack is modelled as its code behaves, where the code and its own comments disagree:
  - ARP and IP return a `bool`, and `Ethernet_ProcessPacket` stores that bool as a length, so an answered frame returns 1 + 14 = 15.
  - `IP_ProcessPacket` calls `ICMP_ProcessPacket` with one argument, but the function takes two. The model passes the IP payload length.
  - A monoflop rule falls through into the SNTP/remote branch of `checkRules`. Its own timer computation is overwritten there, so it sends queries like a remote rule.
  - `UDP_ProcessPacket` (`Lib/UDP.c:37`) calls `UDP_Callback_Request` with four arguments, the source IP among them, but `rules.c:342` defines it with three. The model follows the definition: `Rules.Engine.CallbackRequest` takes the destination port and the length, and the source IP is dropped.
- The ring's capacity `PACKETBUFFER_LEN` is taken as `PACKET_LEN_MAX + 2` (296 slots before `RingBuffer.End`) rather than `resources.h`'s `PACKET_LEN_MAX`, which leaves no room for the state word of a largest frame (see Findings).
- `rules.c` has its own `calculateTimestamp` and `getStructTM` (`rules.c:102-141`). Its `calculateTimestamp` converts with the time zone avr-libc holds at run time (`__utc_offset` and the optional `__dst_ptr`); that zone is an input of the model. The copy in `timestamp.h` fixes the zone to UTC+1 with its own `eu_dst`, and `Timestamp.CentralEuropeToUtc` states that it is the `rules.c` conversion for that zone.

## Model

| member | source | states |
|---|---|---|
| Helper.DivRoundUp | helper.h:26 | the result is the number of d-sized units that covers n: k·d ≥ n and (k−1)·d < n |
| Helper.DivRoundUpLeast | helper.h:26 | DIV_ROUND_UP(n, d) is the least k with k·d ≥ n |
| Helper.DivRoundDown | helper.h:27 | k·d ≤ n < (k+1)·d |
| Helper.RoundUp | helper.h:28 | a multiple of d in [n, n+d) |
| Helper.RoundDown | helper.h:29 | a multiple of d in (n−d, n] |
| Helper.Min | helper.h:21-22 | one of the two arguments, and no larger than either |
| Helper.Max | helper.h:23-24 | one of the two arguments, and no smaller than either |
| Helper.ArraySize | helper.h:36 | sizeof(a)/sizeof(a[0]) is the element count for any element size |
| Resources.HostpartBits | resources.h:36-45 | the width of IP_Hostpart_t is 8, 16 or 32 bits and holds every host bit of the CIDR prefix |
| Resources.NetmaskBytesValue | resources.h:8 | for CIDR 24 NETMASK is 0xFFFFFF00, the bytes 255.255.255.0 (also line 47 of resources.h) |
| Resources.GetHost | resources.h:57-60 | IP_getHost is the host-order address truncated to the width of IP_Hostpart_t |
| Resources.GetHostLastByte | resources.h:36-39 | for CIDR 24 the host part is the last octet (also lines 57-60 of resources.h) |
| Resources.CompareNetPrefix | resources.h:50-53 | IP_compareNet holds iff the first three octets agree |
| Resources.NetAndHostDetermine | resources.h:36-60 | two addresses on the same net with the same host part are equal, so the host part is a sound cache key |
| Resources.BroadcastOnNet | resources.c:9 | the broadcast address (own address OR inverted netmask) lies on the own net and ends in 255 |
| Resources.BroadcastValue | resources.c:9 | the broadcast address of 192.168.200.40/24 is 192.168.200.255 |
| Endianness.ByteToBE16 | endianness.h:17-21 | a lands in the low byte and b in the high byte, so on the little-endian target the bytes lie in memory as a, b |
| Endianness.ByteToBE32 | endianness.h:23-27 | the four bytes land in the value's bytes 0 to 3 in order a, b, c, d |
| Endianness.BE32ToBE16 | endianness.h:29-33 | the result is the upper half of the 32-bit value |
| Endianness.BE32ToBE8 | endianness.h:35-39 | the result is the top byte of the 32-bit value |
| Endianness.BE8OfBE32 | endianness.h:23-39 | BE32ToBE8(ByteToBE32(a, b, c, d)) is d |
| Endianness.BE16OfBE32 | endianness.h:17-33 | BE32ToBE16(ByteToBE32(a, b, c, d)) is ByteToBE16(c, d) |
| Endianness.BytesDetermine16 | endianness.h:17-21 | a 16-bit value is determined by its two bytes |
| ByteSwapping.FromBytes2 | c++/endianness.h:8-12 | a is the high byte and b the low byte |
| ByteSwapping.FromBytes4 | c++/endianness.h:13-17 | the big-endian composition: a is the top byte, d the low byte |
| ByteSwapping.FromBytes8 | c++/endianness.h:18-22 | the intended big-endian composition of eight bytes |
| ByteSwapping.SignExtend8 | c++/endianness.h:19-21 | converting the int8_t e to uint64_t keeps its low byte, and sets every higher bit when e ≥ 128 |
| ByteSwapping.FromBytes8AsWritten | c++/endianness.h:18-22 | the composition as written equals the intended one when e < 128, and has bits 32 to 63 set otherwise |
| ByteSwapping.FromBytes8SignExtends | c++/endianness.h:19-21 | the bytes 0,0,0,0,0x80,0,0,0 give 0xFFFFFFFF80000000 as written instead of 0x80000000 |
| ByteSwapping.Byteswap | c++/endianness.h:28-36 | byteswap reverses the bytes of the value; a 1-byte value stays as it is |
| ByteSwapping.Byteswap16 | c++/endianness.h:32 | on the 16-bit value loaded from memory, reversal is __builtin_bswap16 |
| ByteSwapping.Byteswap32 | c++/endianness.h:33 | on the 32-bit value, reversal is __builtin_bswap32 |
| ByteSwapping.Byteswap64 | c++/endianness.h:34 | on the 64-bit value, reversal is __builtin_bswap64 |
| ByteSwapping.ByteswapTwice | c++/endianness.h:28-36 | byteswap is an involution |
| ByteSwapping.ByteswapInjective | c++/endianness.h:28-36 | byteswap of two values are equal iff the values are (also line 49 of endianness.h) |
| ByteSwapping.Bitwise | c++/endianness.h:54-58 | and, or and xor on values in memory act byte by byte |
| ByteSwapping.Complement | c++/endianness.h:60 | ~ acts byte by byte |
| ByteSwapping.And32 | c++/endianness.h:54 | on a 32-bit value, the byte-wise and is the and of the loaded values |
| ByteSwapping.Or32 | c++/endianness.h:56 | on a 32-bit value, the byte-wise or is the or of the loaded values |
| ByteSwapping.Xor32 | c++/endianness.h:58 | on a 32-bit value, the byte-wise xor is the xor of the loaded values |
| ByteSwapping.Complement32 | c++/endianness.h:60 | on a 32-bit value, the byte-wise complement is the complement of the loaded value |
| ByteSwapping.ByteswapBitwise | c++/endianness.h:54-66 | byteswap commutes with and, or and xor |
| ByteSwapping.ByteswapComplement | c++/endianness.h:60 | byteswap commutes with ~ |
| ByteSwapping.ByteSwap.constructor | c++/endianness.h:38-39 | the stored value is byteswap of the argument, and converting back yields the argument |
| ByteSwapping.ByteSwap.Get | c++/endianness.h:44-46 | conversion to the base type returns the value whose byteswap is stored |
| ByteSwapping.ByteSwap.Equals | c++/endianness.h:48-49 | == on stored values holds iff the original values are equal |
| ByteSwapping.ByteSwap.NotEquals | c++/endianness.h:50-51 | != holds iff the original values differ |
| ByteSwapping.ByteSwap.AndAssign | c++/endianness.h:53-54 | &= on the stored values leaves the and of the original values |
| ByteSwapping.ByteSwap.OrAssign | c++/endianness.h:55-56 | or-assignment on the stored values leaves the or of the original values |
| ByteSwapping.ByteSwap.XorAssign | c++/endianness.h:57-58 | ^= on the stored values leaves the xor of the original values |
| ByteSwapping.NotSwapped | c++/endianness.h:59-60 | ~ on a stored value is the stored form of the complement of the original |
| ByteSwapping.BitwiseSwapped | c++/endianness.h:61-66 | and, or and xor on stored values give the stored form of the operation on the originals |
| PacketState.BitAnd | c++/Packet.h:21 | operator & is the bitwise and of the 16-bit representations; the result is no larger than either operand |
| PacketState.BitOr | c++/Packet.h:22 | the or operator is the bitwise or of the 16-bit representations; the result lies between the larger operand and the sum |
| PacketState.GetLen | PacketBuffer.h:17-22 | Packet_getLen (and Packet::getLen, c++/Packet.h:30) masks the two top bits: the result is the state modulo 2^14, at most 0x3FFF |
| PacketState.Flags | c++/Packet.h:13 | state & Flags keeps the two top bits in place and is one of the four flag values |
| PacketState.HasInput | c++/Packet.h:16 | the Input bit (bit 14) is set |
| PacketState.HasOutput | c++/Packet.h:17 | the Output bit (bit 15) is set, that is the state is at least 0x8000 |
| PacketState.IsSkip | c++/Packet.h:18 | both flag bits are set, that is the state is at least 0xC000 |
| PacketState.FlagsOf | c++/Packet.h:13-18 | which flag value a state carries follows from its two bits |
| PacketState.OrFlag | c++/Packet.h:22 | or-ing a flag into a state keeps its length and ors the flag bits |
| PacketState.OrFlagValue | c++/Packet.h:22 | the same as a value: length plus the or of the two-bit flag fields |
| PacketState.SetFlag | PacketBuffer.c:188 | or-ing a flag into an unflagged state adds it; Skip overrides any flag; Input on an Output state gives Skip (also lines 124, 195, 268 and 286 of PacketBuffer.c) |
| PacketState.ShortLen | PacketBuffer.h:18-22 | Packet_getLen(len) == len for every len below 2^14 |
| PacketState.LenOrFlag | PacketBuffer.h:11-12 | for len < 2^14 and every flag f, len or-ed with f is len + f, with length len and flags f (also lines 18-22 of PacketBuffer.h) |
| PacketState.FlagConstants | c++/Packet.h:15-18 | Skip is Input or-ed with Output, and EndOfRing is 0 with length 0 |
| PacketState.StartOverIsSkip | c++/Packet.h:18-19 | StartOver has both flag bits set, so every Skip test takes it for Skip |
| PacketState.PacketAlignment | PacketBuffer.h:14 | Packet_t is aligned to the larger of 2 and alignof(uint32_t) |
| RingChain.Next | PacketBuffer.c:67-71 | getNextPacket: the slot after a record covers its header and payload and is at most one slot more than needed; it lies strictly after the record whenever header plus length is positive |
| RingChain.Ordered | PacketBuffer.c:30-46 | under the ring invariant the record slots are distinct, and the ring is unwrapped iff OutputReader ≤ NextWriter |
| RingChain.FirstWithoutOutput | PacketBuffer.c:205-220 | the record where Packet_GetInput's scan stops: the first one from the input reader without the Output bit, every record before it has the bit |
| RingChain.FirstNotSkip | PacketBuffer.c:238-249 | the record where Packet_GetOutput's scan stops: the first one from the output reader that is not Skip |
| RingChain.FirstPureOutput | PacketBuffer.c:209-214 | the first finished output record (Output without Input) the input scan passes, where OutputReader is taken along |
| RingChain.ScanInput | PacketBuffer.c:201-220 | the scan loop of Packet_GetInput ends on FirstWithoutOutput; skipInput holds iff it moved; OutputReader's new place is the first finished output record passed when it started on the input reader |
| RingChain.ScanOutput | PacketBuffer.c:234-249 | the scan loop of Packet_GetOutput ends on FirstNotSkip; skipOutput holds iff it moved, skipInput iff it passed the input reader |
| PacketBuffer.EndIsRounded | PacketBuffer.c:58-60 | RingBuffer.End is slot DIV_ROUND_UP(PACKETBUFFER_LEN, sizeof(Packet_t)): 295 for the capacity as written, 296 for the corrected one |
| PacketBuffer.LargestFrameOverruns | resources.h:21 | with PACKETBUFFER_LEN = PACKET_LEN_MAX, the pre-check accepts a 590-byte frame whose record, placed at slot 0 of an empty ring, ends one slot past RingBuffer.End, so the assert of PacketBuffer.c:96 fails |
| PacketBuffer.CheckedFramesFit | PacketBuffer.c:94-96 | with the corrected capacity, every frame length the pre-check returns fits an empty ring from slot 0, so the precondition of New holds |
| PacketBuffer.Placement | PacketBuffer.c:84-117 | allocateNew's choice: the writer's slot when the record fits before the oldest reader (or End), else slot 0 when the writer is in the upper part and the record fits below the oldest reader or the ring is empty; NULL exactly in the two full cases |
| PacketBuffer.RingBuffer.constructor | PacketBuffer.c:58-65 | the zero-initialised ring satisfies the invariant with all three pointers at Start |
| PacketBuffer.RingBuffer.Allocate | PacketBuffer.c:82-133 | allocateNew keeps the ring invariant; it returns Placement; on NULL nothing changes; an empty ring restarts both readers at Start; a wrap marks the old writer slot StartOver; the record gets state len, EndOfRing follows it and NextWriter moves there; with resize the old record becomes Skip or-ed with oldLen and its payload is copied |
| PacketBuffer.RingBuffer.Place | PacketBuffer.c:119-132 | the writes of allocateNew once a slot is chosen, and the ring invariant after them |
| PacketBuffer.RingBuffer.Fill | PacketBuffer.c:119-129 | state len at the new record, Skip or-ed with oldLen at the old one and the copied payload when resizing, EndOfRing after the new record, in that order |
| PacketBuffer.Filled | PacketBuffer.c:119-129 | the memory after those writes has EndOfRing at the new writer |
| PacketBuffer.FilledFacts | PacketBuffer.c:119-129 | the new record's state is len, the copied slots hold the old payload, the old record is Skip or-ed with oldLen, and nothing else changes |
| PacketBuffer.MoveSlots | PacketBuffer.c:126 | memmove: the destination slots receive the source slots as they were before the copy, whatever the overlap; other slots keep their words |
| PacketBuffer.PayloadSlots | PacketBuffer.c:126 | memmove of oldLen bytes covers DIV_ROUND_UP(oldLen, 2) words |
| PacketBuffer.CopyBounds | PacketBuffer.c:122-127 | the copied payload lies inside the old record, and the new record does not start inside it |
| PacketBuffer.RingBuffer.New | PacketBuffer.c:135-139 | Packet_New is allocateNew from NextWriter and OutputReader without resize, with all of its guarantees |
| PacketBuffer.RingBuffer.Resize | PacketBuffer.c:141-182 | Packet_Resize keeps the ring invariant; a shrink or same size returns the packet with state len; a shrinking last record pulls NextWriter back; a shrinking inner record leaves a Skip record up to the old end; an extension in place at the end moves NextWriter; otherwise allocateNew with resize; the readers never move |
| PacketBuffer.RingBuffer.Shrink | PacketBuffer.c:150-165 | the shrink branches of Packet_Resize and their effect on the memory and NextWriter |
| PacketBuffer.RingBuffer.Extend | PacketBuffer.c:167-181 | the extend branches of Packet_Resize: append in place, or reallocate with a copy |
| PacketBuffer.RingBuffer.SetLen | PacketBuffer.c:160-164 | a new length that ends at the same slot only rewrites the state word |
| PacketBuffer.RingBuffer.MoveWriter | PacketBuffer.c:153-154 | the record that ends at NextWriter gets state len and the writer moves to its new end, which holds EndOfRing (also lines 172-177 of PacketBuffer.c) |
| PacketBuffer.RingBuffer.SplitOff | PacketBuffer.c:155-156 | the freed tail of an inner record becomes a Skip record whose length reaches exactly to the old successor (also line 163 of PacketBuffer.c) |
| PacketBuffer.ShrinkLastAsWritten | PacketBuffer.c:153-154 | as written, shrinking the last record moves NextWriter without writing EndOfRing there: the word at the new writer keeps its old value (also line 163 of PacketBuffer.c) |
| PacketBuffer.ShrinkLastLeavesStaleWord | PacketBuffer.c:153-154 | a valid ring whose last record shrinks from 18 to 2 bytes ends up with a stale Output word at NextWriter, so the EndOfRing-at-writer invariant fails |
| PacketBuffer.StaleRingValid | PacketBuffer.c:30-46 | the ring of that example satisfies the invariant before the shrink |
| PacketBuffer.RingBuffer.PutInput | PacketBuffer.c:184-189 | Packet_PutInput adds the Input flag to an unflagged record, keeps the invariant and changes no other slot |
| PacketBuffer.RingBuffer.PutOutput | PacketBuffer.c:191-196 | Packet_PutOutput adds the Output flag in the same way |
| PacketBuffer.RingBuffer.Mark | PacketBuffer.c:187-195 | or-ing Input or Output into an unfinished record keeps the ring invariant |
| PacketBuffer.RingBuffer.GetInput | PacketBuffer.c:198-229 | Packet_GetInput moves InputReader to the first record without the Output bit, takes OutputReader along only over records it shared up to the first finished output record, changes no memory, and returns the reader iff it holds an Input record |
| PacketBuffer.RingBuffer.GetOutput | PacketBuffer.c:231-258 | Packet_GetOutput moves OutputReader over the Skip records, takes InputReader along when passed, and returns the reader iff it holds an Output record |
| PacketBuffer.RingBuffer.ReleaseInput | PacketBuffer.c:260-269 | any record without the Output bit may be released, waiting or unfinished (as after a short USB read, USB.c:189-192); on InputReader's record InputReader moves past it; OutputReader follows if it was on it, otherwise the record is marked Skip; a record behind InputReader is only marked Skip; the invariant holds |
| PacketBuffer.RingBuffer.MarkSkip | PacketBuffer.c:266-268 | the Skip branch: the record's state becomes its length with Skip, OutputReader stays, InputReader moves on only if it was on the record; the invariant holds |
| PacketBuffer.ReleaseInputAsWritten | PacketBuffer.c:263-268 | as written, InputReader always moves to the record after the released one, whatever record it was on |
| PacketBuffer.ReleaseInputSkipsWaiting | PacketBuffer.c:264 | in a valid ring with a waiting input record A and an unfinished record B behind it, releasing B as written puts InputReader on the writer slot while A is still Input without the Output bit: the invariant fails and no reader returns A |
| PacketBuffer.WaitingRingValid | PacketBuffer.c:30-46 | the ring of that example satisfies the invariant before the release |
| PacketBuffer.RingBuffer.ReleaseOutput | PacketBuffer.c:271-278 | OutputReader moves past the packet, InputReader too if it was on it; no memory changes |
| PacketBuffer.RingBuffer.ReattachOutput | PacketBuffer.c:280-288 | an Input record becomes Output with its length kept, and InputReader moves past it |
| PacketBuffer.MarkSkip | PacketBuffer.c:124 | marking the resized record Skip or-ed with oldLen keeps the ring invariant |
| PacketBuffer.Allocated | PacketBuffer.c:84-133 | after allocateNew's writes the ring invariant holds with the new record appended, its writer at the new end and the readers in place |
| PacketBuffer.RestartRecord | PacketBuffer.c:94-99 | a restart leaves the two-record chain from Start (also lines 119-130 of PacketBuffer.c) |
| PacketBuffer.AppendRecord | PacketBuffer.c:119-130 | a record at the writer extends the chain by one |
| PacketBuffer.WrapRecord | PacketBuffer.c:100-104 | a wrap extends the chain by the StartOver mark and the record at Start (also lines 109-130 of PacketBuffer.c) |
| PacketBuffer.ResizeSame | PacketBuffer.c:160-164 | rewriting a state to a length that ends at the same slot keeps the invariant |
| PacketBuffer.ResizeLast | PacketBuffer.c:153-154 | moving the last record's end (with EndOfRing written) keeps the invariant (also lines 172-177 of PacketBuffer.c) |
| PacketBuffer.ResizeMiddle | PacketBuffer.c:155-156 | splitting an inner record keeps the invariant with the Skip record inserted into the chain (also line 163 of PacketBuffer.c) |
| Queue.Placement | c++/Queue.cpp:27-62 | RingBuffer::Get's choice: the writer's slot when the record fits, slot 0 on a restart of an empty ring or when the record fits below the oldest reader, NULL exactly in the two full cases |
| Queue.Placed | c++/Queue.cpp:49 | the words after Get: StartOver at the old writer on a wrap, EndOfRing at the new writer, the length at the record, nothing else changed (also lines 64-65 of Queue.cpp) |
| Queue.RingBuffer.constructor | c++/Queue.cpp:5-9 | the static ring is zero-initialised with all three pointers at ringBuffer.start, and satisfies the invariant |
| Queue.RingBuffer.Get | c++/Queue.cpp:25-69 | Get keeps the ring invariant, returns Placement, changes nothing when full, resets both readers on a restart, and leaves EndOfRing at the new nextWriter, which stays within the ring |
| Queue.RingBuffer.Commit | c++/Queue.cpp:64-66 | the final writes of Get and the ring invariant after them |
| Queue.Allocated | c++/Queue.cpp:25-69 | the ring invariant after Get's writes, in each of its cases |
| Queue.AllocatedNothing | c++/Queue.cpp:15 | a zero-length record is placed at the writer, ends there (the C++ getNextPacket counts no header), and its two writes leave the ring as it was (also lines 29, 64-65 of Queue.cpp) |
| Queue.AllocatedRestart | c++/Queue.cpp:39-44 | a restart leaves the two-record chain from slot 0 (also lines 64-66 of Queue.cpp) |
| Queue.AllocatedAppend | c++/Queue.cpp:64-66 | a record at the writer extends the chain by one |
| Queue.AllocatedWrap | c++/Queue.cpp:45-54 | a wrap extends the chain by the StartOver mark and the record at slot 0 (also lines 64-66 of Queue.cpp) |
| Queue.RingBuffer.Release | c++/Queue.cpp:71-81 | each reader on the record moves past it; if outputReader was not on it the record is marked Skip; the invariant holds |
| Queue.RingBuffer.ReleaseOldest | c++/Queue.cpp:74-78 | releasing the oldest record changes no memory and moves outputReader (and inputReader when on it) past it |
| Queue.RingBuffer.ReleaseLater | c++/Queue.cpp:74-80 | releasing a later record marks it Skip and moves inputReader past it when on it |
| Queue.ReleasedOldest | c++/Queue.cpp:77-78 | the chain without its first record satisfies the invariant |
| Queue.ReleasedLater | c++/Queue.cpp:79-80 | the chain with a record marked Skip satisfies the invariant |
| Queue.InputPushAsWritten | c++/Queue.cpp:83-87 | InputQueue::Push as written: the length is kept and Input is or-ed into a state that must carry Output |
| Queue.InputPushMakesSkip | c++/Queue.cpp:85-86 | every record InputQueue::Push accepts becomes Skip, which no Pop ever returns |
| Queue.RingBuffer.InputPush | c++/Queue.cpp:83-87 | the intended InputQueue::Push: an unfinished record gets the Input flag and the invariant holds |
| Queue.OutputPushAsWritten | c++/Queue.cpp:89-95 | OutputQueue::Push as written: the record gets length or-ed with Input, and inputReader moves past it when it had the Input bit |
| Queue.OutputPushStrandsRecord | c++/Queue.cpp:89-95 | from a valid ring holding one input record at the input reader, the push as written leaves an Input record behind inputReader: the invariant fails, OutputQueue::Pop stops on it without returning it, InputQueue::Pop no longer reaches it (also lines 106, 140, 158 of Queue.cpp) |
| Queue.OneInputRingValid | c++/Queue.cpp:13-16 | that example ring satisfies the invariant |
| Queue.RingBuffer.OutputPush | c++/Queue.cpp:89-95 | the intended OutputQueue::Push: the record gets length or-ed with Output, inputReader moves past an input record, and the invariant holds |
| Queue.MarkedInput | c++/Queue.cpp:86 | an unfinished record gaining the Input flag keeps the ring invariant |
| Queue.MarkedOutput | c++/Queue.cpp:94 | an unfinished record becoming length or-ed with Output keeps the ring invariant |
| Queue.RingBuffer.OutputPushInput | c++/Queue.cpp:92-94 | pushing the input record at inputReader moves inputReader past it |
| Queue.RingBuffer.OutputPushUnfinished | c++/Queue.cpp:91 | an unfinished record joins the output chain where it lies (also line 94 of Queue.cpp) |
| Queue.RingBuffer.InputPop | c++/Queue.cpp:97-129 | InputQueue::Pop moves inputReader to the first record without the Output bit, takes outputReader along over the records it shared up to the first finished output record, and returns the record iff it is an input record |
| Queue.RingBuffer.OutputPop | c++/Queue.cpp:131-159 | OutputQueue::Pop moves outputReader over the Skip records, takes inputReader along when passed, and returns the record iff it carries Output |
| Checksum.Add | Lib/IP.c:29-39 | one's-complement addition with end-around carry: the result agrees with the plain sum modulo 0xFFFF, and it is 0 exactly when both summands are 0 |
| Checksum.Words | Lib/IP.c:41-51 | the words IP_Checksum reads: one per byte pair, read little-endian, and a last odd byte alone |
| Checksum.SumClosedForm | Lib/IP.c:47-51 | the running one's-complement sum equals the integer sum folded into [1, 0xFFFF], or 0 for an all-zero input |
| Checksum.TotalUpdate | Lib/IP.c:47-48 | replacing one word changes the integer sum by exactly the difference |
| Checksum.ValidIff | Lib/IP.c:53 | the checksum over a buffer is 0 iff the integer sum of its words is a positive multiple of 0xFFFF |
| Checksum.StoreWord | Lib/IP.c:69-70 | storing a 16-bit value at an even offset replaces exactly one word of the summed sequence |
| Checksum.Seal | Lib/IP.c:69-70 | a checksum computed over a header whose checksum field is zero, written into that field, makes the checksum over the header 0 |
| Checksum.Adjust | Lib/ICMP.c:17-18 | moving a value from the first word to the second with a one's-complement add keeps a valid checksum valid |
| Checksum.TotalAtLeast | Lib/IP.c:47-48 | each word is at most the integer sum |
| Checksum.Compute | Lib/IP.c:41-54 | IP_Checksum and its copy Ethernet_Checksum (Lib/Ethernet.c:57-70): the loop returns the complement of the one's-complement sum of the words of the given bytes |
| LibIcmp.Replied | Lib/ICMP.c:14-18 | an echo reply keeps the code and adds the request-reply difference to the stored checksum |
| LibIcmp.ProcessPacket | Lib/ICMP.c:4-26 | an echo request (code 0, type 8) becomes the reply in place and the length is returned; any other message is left as it is and 0 is returned |
| LibIcmp.ReplyNotAnswered | Lib/ICMP.c:22-24 | a reply is never answered again |
| LibIcmp.ReplyChecksumValid | Lib/ICMP.c:16-18 | a request with a valid checksum gives a reply with a valid checksum |
| LibIcmp.ReplyWords | Lib/ICMP.c:16-18 | the reply's words are the request's with the first word cleared and the difference added to the checksum word |
| LibIcmp.ReplyBytes | Lib/ICMP.c:16-18 | the reply bytes are two stores: the type/code word set to 0 and the adjusted checksum |
| LibIp.Unsealed | Lib/IP.c:56-69 | the header IP_WriteHeader fills before the checksum, with a zero checksum field |
| LibIp.Header | Lib/IP.c:56-72 | the written header is 20 bytes and its checksum verifies (is 0) |
| LibIp.FragmentBits | Lib/IP.c:84 | the fragment bits are the More Fragments bit and the offset, the low 14 bits of Flags/Fragment |
| LibIp.ReadHeader | Lib/IP.c:60-70 | every field of a written header reads back: version/IHL 0x45, length header plus payload as a uint16_t, Don't Fragment only, TTL 64, the protocol, the station as source and the destination |
| LibIp.ReadUnsealed | Lib/IP.c:60-69 | the fields of the header before sealing are those IP_WriteHeader assigns |
| LibIp.WriteHeader | Lib/IP.c:56-73 | IP_WriteHeader writes exactly the sealed header at the offset and returns 20 |
| LibIp.PayloadLength | Lib/IP.c:91 | the payload length is the Length field less 20 as a uint16_t, and adding the header back gives the Length field |
| LibIp.LengthWrapsBack | Lib/IP.c:91 | the Length field of the reflected header equals the received one, also when it is smaller than 20 |
| LibIp.PayloadReadable | Lib/IP.c:81-99 | a Length field within the received length keeps the UDP payload the rule engine reads within the buffer |
| LibIp.Answer | Lib/IP.c:93-103 | the layer above writes only within the buffer and leaves its length |
| LibIp.Processed | Lib/IP.c:75-112 | a datagram that is not accepted is left as it is; an answered one gets a header back to its source with the same protocol and payload length |
| LibIp.StatesAfter | Lib/IP.c:93-103 | only an accepted UDP datagram reaches the rule engine |
| LibIp.ProcessPacket | Lib/IP.c:75-112 | IP_ProcessPacket: returns whether the datagram is answered, and leaves the buffer and the rule states as the reference functions say |
| LibIp.ReflectedToSender | Lib/IP.c:105-108 | a reflected header is a valid header from the station to the original sender, with the same protocol, the same Length field and a checksum that verifies |
| LibIp.ReflectedHeader | Lib/IP.c:107 | the fields and checksum of a header IP_WriteHeader writes for a reflected datagram |
| LibIp.NextHop | Lib/IP.c:116-118 | the next hop is the destination on the own subnet and the router otherwise, and it is always on the own subnet |
| LibIp.GenerateUnicast | Lib/IP.c:114-125 | a non-positive Ethernet offset is passed through with the buffer untouched; otherwise the header to the real destination follows it and the int8_t sum is returned |
| LibIp.GenerateBroadcast | Lib/IP.c:127-132 | the header to the subnet broadcast follows the Ethernet header and the uint8_t sum is returned |
| LibEthernet.Header | Lib/Ethernet.c:81-90 | the Ethernet header: destination, the station's MAC as source, the EtherType |
| LibEthernet.Returned | Lib/Ethernet.c:39-40 | an answered frame goes to its source from the station, the rest unchanged |
| LibEthernet.ProcessPacket | Lib/Ethernet.c:13-43 | a frame not for the station or of another EtherType returns 0 and changes nothing; ARP and IPv4 frames return 15 exactly when answered, with the buffer, the ARP cache and the rule states as the layers' reference functions say |
| LibEthernet.ProcessArp | Lib/Ethernet.c:25-41 | an ARP request for the station is answered and turned back; a reply from the subnet is learned into the cache |
| LibEthernet.ReturnToSender | Lib/Ethernet.c:39-40 | the addresses of the answered frame are swapped in place |
| LibEthernet.ProcessIPv4 | Lib/Ethernet.c:28-41 | the IPv4 branch returns 15 exactly when IP answers, and turns that answer back |
| LibEthernet.GenerateHeader | Lib/Ethernet.c:81-90 | writes the header at the start of the frame and returns 14 |
| LibEthernet.GenerateHeaderIP | Lib/Ethernet.c:72-79 | with a cached MAC the header to it is written and 14 returned; on a miss the ARP request frame is written instead and its length returned negated as an int8_t |
| Arp.Encode | Lib/ARP.c:7-20 | the packed ARP_Header_t is 28 bytes |
| Arp.ParseEncode | Lib/ARP.c:7-20 | reading the fields of an encoded header gives back the header |
| Arp.EncodeParse | Lib/ARP.c:7-20 | encoding the fields read from 28 bytes gives back the bytes: the layout has no gaps |
| Arp.ReplyTo | Lib/ARP.c:68-70 | the reply to a request is addressed to its sender and comes from the station |
| Arp.FirstMatch | Lib/ARP.c:79-87 | the first table entry for a host part, every entry before it holding another host |
| Arp.Lookup | Lib/ARP.c:105-115 | ARP_searchMAC finds a MAC iff some entry holds the host part, and the MAC found is that of an entry for it |
| Arp.PositionAsWrittenOverruns | Lib/ARP.c:90-96 | as written, writePosition counts up to 10, one past the last entry of ARP_Table |
| Arp.NextPosition | Lib/ARP.c:93-96 | the intended advance stays within the ten entries, round robin |
| Arp.Learned | Lib/ARP.c:76-97 | learning keeps the table size |
| Arp.LearnedPosition | Lib/ARP.c:88-97 | writePosition stays within the table |
| Arp.LearnThenLookup | Lib/ARP.c:79-97 | after learning a host's MAC, searching for that host finds that MAC |
| Arp.LearnKeepsOthers | Lib/ARP.c:79-97 | learning one host leaves the search result for every other host unchanged, unless the other host's entry is the one overwritten |
| Arp.FirstMatchAgree | Lib/ARP.c:79-87 | the first match depends only on the entries up to it |
| Arp.ZeroHostFound | Lib/ARP.c:36 | the zero-initialised table answers a search for host part 0 with the zero MAC |
| Arp.Table.constructor | Lib/ARP.c:36 | the table starts with ten zero entries and writePosition 0 |
| Arp.Table.Learn | Lib/ARP.c:72-97 | the table and writePosition after a reply from the subnet are those of Learned and LearnedPosition, and the table stays valid |
| Arp.Table.SearchMac | Lib/ARP.c:105-115 | the search loop returns Lookup of the table |
| LibArp.WriteHeader | Lib/ARP.c:38-52 | ARP_WriteHeader writes the header with the fixed fields, the operation, the target and the station as sender, and returns 28 |
| LibArp.ProcessPacket | Lib/ARP.c:54-103 | a checked request for the station is answered in place; a checked reply for the station from the subnet is learned; nothing else changes the frame or the table |
| LibArp.GenerateBroadcastRequest | Lib/ARP.c:117-122 | a request to the broadcast MAC for the destination follows the Ethernet header, and the uint8_t sum is returned |
| LibArp.ReplyReadsBack | Lib/ARP.c:68-70 | the reply written in the frame reads back as a reply to the sender from the station |
| CppArp.WrittenAsWritten | c++/net/ARP.c:37-40 | as written, the six-byte copy into SenderIP overwrites the first two bytes of TargetMAC |
| CppArp.RequestNotBroadcast | c++/net/ARP.c:107-112 | as written, a generated request is not sent to the broadcast MAC unless the two stray bytes are 0xFF |
| CppArp.WriteHeader | c++/net/ARP.c:28-43 | the corrected ARP_WriteHeader writes the same header as the C stack and returns 28 |
| CppArp.ProcessPacket | c++/net/ARP.c:45-93 | only the target address is checked; a request is answered by the five field stores, a reply from the subnet is learned |
| CppArp.FieldWrites | c++/net/ARP.c:55-59 | the five field stores of the reply give the swapped header |
| CppArp.GenerateRequest | c++/net/ARP.c:107-112 | a broadcast request follows the Ethernet header, and the uint8_t sum is returned |
| CppArp.RepliesAgree | c++/net/ARP.c:54-60 | for a request both stacks accept, the C++ reply is byte for byte the C reply |
| LibSntp.Ticks | Lib/SNTP.c:15-33 | the ticks frac2timer returns stay within one Timer1 period, 0..62498 |
| LibSntp.HalfOf | Lib/SNTP.c:20 | halving a quotient again halves by the doubled divisor, so repeated shifts are divisions by powers of two |
| LibSntp.AccumulatedMonotone | Lib/SNTP.c:18-30 | the accumulator never decreases over the loop |
| LibSntp.ShiftedValues | Lib/SNTP.c:18-20 | the shifted fraction after 1, 2, 3, 4, 6, 11 and 15 shifts is the fraction divided by 2, 4, 8, 16, 64, 2048 and 32768 |
| LibSntp.AccumulatedAll | Lib/SNTP.c:18-30 | after the loop the accumulator is the sum of the seven terms added after the shifts selected by the values 15, 14, 13, 12, 10, 5 and 1 of i (the set bits of 62498) |
| LibSntp.ScaledBounds | Lib/SNTP.c:9-14 | the accumulator is within 7 of fract · 31249 / 2^15 from below |
| LibSntp.NoOverflow | Lib/SNTP.c:32 | adding 32768 to the accumulator does not overflow the uint32_t |
| LibSntp.AccumulatedFits | Lib/SNTP.c:17-30 | no intermediate accumulator overflows the uint32_t |
| LibSntp.ScaledBelow | Lib/SNTP.c:32 | the rounded upper 16 bits are at most 62498 |
| LibSntp.TicksRounded | Lib/SNTP.c:9-14 | frac2timer is the comment's round(fract · 62498 / 2^32) or one below it |
| LibSntp.Frac2Timer | Lib/SNTP.c:15-33 | the shift-and-add loop returns the ticks of the fraction |
| LibSntp.VersionAndMode | Lib/SNTP.c:43 | VersionMode & 0x3F keeps the low six bits |
| LibSntp.NewTime | Lib/SNTP.c:49 | the new time plus NTP_OFFSET is the transmit seconds modulo 2^32 |
| LibSntp.ProcessPacket | Lib/SNTP.c:36-50 | an answer of the wrong length, mode, leap indicator 3 or a zero transmit timestamp returns 0 and leaves TCNT1; an acceptable one returns the new time and sets TCNT1 from the fraction |
| LibSntp.Request | Lib/SNTP.c:89-92 | the request is 48 bytes, zero except the client VersionMode |
| LibSntp.RequestNotAnswer | Lib/SNTP.c:43 | a request is never accepted as an answer |
| LibSntp.GeneratePacket | Lib/SNTP.c:83-100 | a negative offset is passed through with the frame untouched; otherwise the request follows it and offset + 48 is returned as an int8_t (c++/net/SNTP.c:74-90 without DEBUG writes the same) |
| CppSntp.ProcessPacket | c++/net/SNTP.c:56-72 | the same checks and conversion as the C stack, and an accepted time is also handed to set_system_time |
| LibAscii.Encode | Lib/ASCII.c:22 | a value is written as '1' or '0' |
| LibAscii.ProcessReply | Lib/ASCII.c:4-15 | a reply is understood iff it is one byte holding '0' or '1', and then its value is whether that byte is '1' |
| LibAscii.ProcessRequest | Lib/ASCII.c:17-24 | a one-byte request is answered in place with the value's character; other lengths are refused and leave the frame |
| LibAscii.RequestThenReply | Lib/ASCII.c:4-24 | the answer written to a request reads back as the value |
| LibAscii.GenerateRequest | Lib/ASCII.c:26-35 | a negative offset is passed through; otherwise '?' is written at it and offset + 1 returned |
| LibAscii.GenerateBroadcast | Lib/ASCII.c:37-44 | the value's character is written at the offset and offset + 1 returned as a uint8_t |
| LibAscii.QueryIsNoAnswer | Lib/ASCII.c:9-13 | a query '?' is never taken for an answer |
| LibUdp.Header | Lib/UDP.c:14-23 | the 8-byte header holds the two ports, header plus payload length and a zero checksum |
| LibUdp.WriteHeader | Lib/UDP.c:14-23 | UDP_WriteHeader writes exactly that header at the offset and returns 8 |
| LibUdp.Available | Lib/UDP.c:33 | the payload length is the IP payload less 8, wrapping to a large uint16_t below 8 |
| LibUdp.Reflected | Lib/UDP.c:37-40 | the answered datagram has the ports exchanged, a one-byte payload and the value's character in it |
| LibUdp.StatesAfter | Lib/UDP.c:43-46 | only the first remote rule for the sender's address and port can change, and only for a datagram to UDP_PORT_AUTOMAT |
| LibUdp.ProcessPacket | Lib/UDP.c:25-48 | a datagram is answered iff its Length fits, it comes from UDP_PORT_AUTOMAT and the rule engine answers; the frame and the rule states are then as Reflected and StatesAfter say |
| LibUdp.AnswerIsReply | Lib/UDP.c:39 | the reflected header is taken for an answer by the querying switch |
| LibUdp.AnswerSetsRemoteRule | Lib/UDP.c:35-46 | a query's answer, received back by the querying switch, sets the matching remote rule to the answered value and stops its timer, and no other rule changes |
| LibUdp.GenerateRequest | Lib/UDP.c:50-57 | a non-positive offset is passed through; otherwise a query header from UDP_PORT_AUTOMAT follows and the int8_t sum is returned |
| LibUdp.RequestIsQuery | Lib/UDP.c:56 | a generated query is taken for a query by the switch it reaches |
| LibUdp.GenerateBroadcastReply | Lib/UDP.c:59-64 | the header of an answer to UDP_PORT_AUTOMAT follows the offset and the uint8_t sum is returned |
| PacketCheck.FlagBytes | net/PacketCheck.c:66-70 | `data & ~mask` is zero iff the flags byte is 0 or Don't Fragment, and iff the second byte is 0 |
| PacketCheck.Checked | net/PacketCheck.c:5-112 | the length USB_Read24Byte_Check_GetLength returns is 0 or within [PACKET_LEN_MIN, PACKET_LEN_MAX] |
| PacketCheck.CheckedIPv4 | net/PacketCheck.c:47-80 | an IPv4 frame is accepted iff it is for the station, has a 20-byte header, no fragmentation beyond Don't Fragment, carries ICMP or UDP and has a Total Length of 28..576; the result is then the Total Length plus 14 |
| PacketCheck.CheckedArp | net/PacketCheck.c:82-110 | an ARP frame is accepted iff it is for the station with hardware type Ethernet, protocol IPv4 and lengths 6 and 4, and then 42 is returned |
| PacketCheck.Next | net/PacketCheck.c:10 | one read from the endpoint register stores the next input byte after those already stored |
| PacketCheck.ReadEthernet | net/PacketCheck.c:9-46 | the Ethernet part passes iff the destination is the station's or the broadcast MAC and the EtherType's high byte is 0x08; every byte read is stored in order |
| PacketCheck.ReadIPv4 | net/PacketCheck.c:47-80 | the IPv4 part returns Checked of the frame, and an accepted frame has been read up to its 24th byte |
| PacketCheck.ReadArp | net/PacketCheck.c:82-110 | the ARP part returns Checked of the frame, and an accepted frame has been read up to its 24th byte |
| PacketCheck.ReadCheckGetLength | net/PacketCheck.c:5-112 | USB_Read24Byte_Check_GetLength returns Checked of the frame, stores exactly the bytes it read, and reads exactly 24 bytes of an accepted frame |
| IpCheck.Checked | IPcheck.c:59-168 | the length this variant returns is 0 or within [PACKET_LEN_MIN, PACKET_LEN_MAX] |
| IpCheck.AgreeOffIPv4 | IPcheck.c:138-167 | on ARP frames and other EtherTypes the two variants agree |
| IpCheck.AgreeOnIPv4 | IPcheck.c:103-136 | on IPv4 frames with a 20-byte header carrying ICMP or UDP and a Total Length other than 28 the two variants agree |
| IpCheck.MinimumDatagramRejected | IPcheck.c:116 | a 28-byte UDP datagram for the station is dropped by this variant while net/PacketCheck.c takes it |
| IpCheck.ReadIPv4 | IPcheck.c:103-136 | the IPv4 part of this variant returns its Checked value and stores what it read |
| IpCheck.ReadCheckGetLength | IPcheck.c:59-168 | this variant returns its Checked value, stores exactly the bytes it read, and reads exactly 24 bytes of an accepted frame |
| Rules.Unflag | rules.c:152-156 | removing the changed mark gives a known-or-unknown value, the value itself or its negation |
| Rules.ValueRoundTrip | rules.c:13-23 | boolToRuleValue and RuleValueToBool are inverse, a known value is positive, and negation marks and unmarks it |
| Rules.Flagged | rules.c:303-307 | a stored result reads back as the new value, and carries the changed mark iff it differs from the old value |
| Rules.FirmwareConfigured | rules.c:92-97 | the firmware's rule table refers only to rules it holds |
| Rules.CheckDependency | rules.c:143-160 | no dependency when dependIndex equals noDependIndex (the rule's own index for input A, 0 for the logic inputs B to D); unknown iff the dependency's value is unknown, and then nothing is written; a changed flag once set stays set |
| Rules.ReadFlagged | rules.c:143-160 | a dependent rule reads the value last stored and sees a change iff that value differed from the one before |
| Rules.Inputs | rules.c:166-189 | remote rules have no inputs; a local rule whose input A is unknown is skipped |
| Rules.GateBits | rules.c:36-54 | each LogicType_t flag tests one bit of the gate byte |
| Rules.GateOr | rules.c:202-223 | OR and NOR are the or of the inputs and its negation; REPEAT and NOT pass or invert input A |
| Rules.GateForced | rules.c:47-48 | with input E fixed false, ForceOn is always on and ForceOff always off |
| Rules.GateAndConstant | rules.c:51-52 | the AND gate as defined (all inputs and the output inverted, E included) is always off, NAND always on |
| Rules.GateXor | rules.c:216-217 | XOR is the parity of the four inputs, XNOR its negation |
| Rules.RelayWrite | rules.c:225-230 | switching on sets the bit value in the port register, switching off only clears bits |
| Rules.TimeSwitchOutcome | rules.c:232-252 | a time switch leaves the ports, sends nothing, always has a result, and waits for the midnight of the time cache refreshed in the zone the C library holds |
| Rules.QueryOutcome | rules.c:270-297 | a remote rule (and a monoflop, which falls through into that code) has no result; it sends the query to its address and port iff the USB queue is free, and otherwise sets the timer to 0 to retry |
| Rules.RuleOutcome | rules.c:200-298 | only remote rules and monoflops leave the result unknown; logic, relay, sunrise and sunset rules switch their timer off; a query is sent only by the rule whose turn it is, and only with a free USB slot |
| Rules.Step | rules.c:166-308 | one pass changes at most the state of its own rule, and sends at most its own query |
| Rules.StepWaits | rules.c:192-194 | a rule whose inputs did not change waits until its timer expires |
| Rules.StepValue | rules.c:299-307 | a pass never changes the value of a rule without a result, and a value that changes carries the changed mark |
| Rules.Run | rules.c:162-309 | checkRules keeps one state per rule |
| Rules.RunKeepsQueried | rules.c:299-301 | checkRules never changes the value of a remote rule or a monoflop |
| Rules.QueriesAppend | rules.c:166 | appending the query of the next rule keeps the queries in table order |
| Rules.RunSendsQueries | rules.c:162-309 | every packet checkRules sends is a query of a rule whose turn found a free USB slot, at most one per rule, in table order |
| Rules.Announced | rules.c:312-325 | sendChangedRules keeps timers and values and clears the changed mark of every rule whose turn found a free USB slot |
| Rules.Announcements | rules.c:312-325 | every broadcast is for a changed rule and carries its value without the mark |
| Rules.AnnouncedReadsBack | rules.c:317-321 | a broadcast result is the value dependent rules read afterwards, no longer marked changed |
| Rules.FirstRemote | rules.c:355-360 | the first remote rule for a source address and port: it matches, and no rule before it does |
| Rules.Answered | rules.c:362-381 | an answer sets a remote rule to on (SNTP) or to the received value (remote switch), or leaves it; a remote switch's answer stops the timer |
| Rules.RemoteAnswer | rules.c:370-381 | the answer byte written for value b sets the rule to b, marked changed if different, with the timer off |
| Rules.FirstRemoteIs | rules.c:355-360 | the loop of UDP_Callback_Reply stops at the first remote rule for the address and port |
| Rules.Engine.constructor | rules.c:99 | ruleState starts with every timer 0 and every value unknown |
| Rules.Engine.Evaluate | rules.c:200-298 | the switch statement of checkRules computes RuleOutcome (with switch times and midnights converted in the zone the C library holds) and keeps the time cache in step |
| Rules.Engine.CheckRule | rules.c:166-308 | one pass of the loop leaves the engine as Step says |
| Rules.Engine.CheckRules | rules.c:162-309 | checkRules leaves the engine as Run says and returns the packets sent |
| Rules.Engine.SendChangedRules | rules.c:312-325 | the states become Announced and the packets sent are the Announcements |
| Rules.Engine.CallbackRequest | rules.c:341-350 | a query is answered iff it names an existing rule with a known, unmarked value and is one byte long, and then the value's character is written |
| Rules.Engine.CallbackReply | rules.c:352-385 | an answer updates only the first remote rule for its address and port, as Answered says |
| Timestamp.Rebased | timestamp.h:7-8 | the rebased time keeps its place in the week and no longer overflows the week index computation; times before the rebase point are unchanged |
| Timestamp.EuDst | timestamp.h:5-12 | eu_dst returns 3600 or 0 |
| Timestamp.EuDstChangesOnSundays | timestamp.h:9-11 | summer time can start or end only at the week boundary, Sunday 01:00 UTC |
| Timestamp.EuDst2021 | timestamp.h:5-12 | in 2021 summer time began on 28 March and ended on 31 October, at 01:00 UTC |
| Timestamp.LocalToUtc | timestamp.h:16-32 | adding back UTC_OFFSET and the DST offset gives the local time; the result is one or two hours before it |
| Timestamp.ToUtc | rules.c:102-123 | adding back __utc_offset and the value of __dst_ptr (when set) at the result gives the local time mk_gmtime converted |
| Timestamp.CentralEuropeToUtc | timestamp.h:14-32 | timestamp.h's calculateTimestamp is the rules.c conversion for the zone UTC+1 with eu_dst |
| Timestamp.Refreshed | rules.c:124-136 | the cache is kept before the cached midnight, and is refreshed from it on to the local time of now with seconds 0, and the next midnight is local 24:00 converted in the zone (timestamp.h:33-45 is the same code) |
| Timestamp.Clock.constructor | rules.c:124-127 | the cached struct tm and _nextMidnight start zeroed |
| Timestamp.Clock.CalculateTimestamp | rules.c:102-123 | sets the hour and minute of the cached tm and returns that local time converted to UTC in the zone |
| Timestamp.Clock.GetStructTm | rules.c:125-136 | the cache after getStructTM is Refreshed of the old one, and the cached tm is returned |

## Left out

- USB I/O (`USB.c`, LUFA, descriptors) is not part of this model. The endpoint register the pre-check reads is the input sequence `input`; `USB_isReady`/`USB_prepareTS` and the lengths the request generators return are the per-rule inputs `usbFree` and `lengths` of `Rules.Env`; `USB_Send` is the returned list of `Rules.Sent` packets.
- Rules.Configured: a table of 256 rules is excluded; the uint8_t loop counters of checkRules, sendChangedRules and UDP_Callback_Reply (rules.c:166, 314 and 355) never reach that size, so those functions would not return.
- The C `assert`s of the ring code (PacketBuffer.c:96, 145, 187, 194 and 283; c++/Queue.cpp:41) are preconditions of the model's methods; the abort when one fails is not modelled.
- Concurrency: the `volatile` cursors and `ATOMIC_BLOCK` sections between the USB interrupt and the main loop. Each ring operation is one sequential step.
- Hardware: board setup, timers, the bootloader jump and the relay port registers as memory; `TCNT1` written by SNTP is returned as an `Option<U16>` output, relay writes go to a map of port values.
- The `SNTP_CALCULATE_ROUNDTRIP` branch of `Lib/SNTP.c` and the `DEBUG` branch of `c++/net/SNTP.c`: they read the hardware timer and the clock.
- The C time library: `time`, `localtime_r`, `mk_gmtime` and the zone in `__utc_offset` and `__dst_ptr` are parameters (`Rules.Env`); nothing in the firmware sets the zone. `set_system_time` is the `systemTime` output of `CppSntp.ProcessPacket`.
- Callees whose code is not part of this model (`Ethernet_GenerateBroadcast`, `Ethernet_GenerateBroadcastReply`, `Ethernet_GenerateUnicast`, `IP_GenerateRequest`, `IP_GenerateBroadcastReply`, `UDP_GenerateUnicast`, `UDP_GenerateHeader`, `UDP_GenerateBroadcast`, `ARP_GenerateRequest` of the C stack): the offset they return is a parameter of their caller, which writes its own header at that offset.
- `processNetworkPackets` (`rules.c:327-339`) only hands a received frame from USB to `Ethernet_ProcessPacket` and back; it is USB plumbing.
- `c++/net/Ethernet.c` (an unfinished draft duplicating `Lib/Ethernet.c`), `c++/Packet.cpp` (operator new and delete around `RingBuffer::Get` and `Release` under `ATOMIC_BLOCK`; operator new then overwrites `state` with `sizeOfClass + extraBytes - sizeof(Packet)` at line 12, which leaves out the `Packet` object that `RingBuffer::Get` counted in the length it wrote (c++/Queue.cpp:29 and 65), so a successor computed from that state falls short of the reservation; the model's `Queue` keeps the length `Get` writes), the `net/IP.h` and `c++/net/IP.h` host-part selection (not evaluable; `resources.h` is used), the MAC and IP wrapper headers, `resources.c` constants (folded into `Resources`), and the configuration tables `platine1.h`, `Teich.h`, `test.h` (for a newer rule layout).
- Sunrise and sunset rules have no case in the `checkRules` switch; the model gives them the switch's defaults (input A, timer off), as the code does.
- LibEthernet.ProcessPacket: the TCNT1 value it passes up from SNTP is not stated in its contract; it is stated by `LibSntp.ProcessPacket`.
- LibIp.ProcessPacket: the TCNT1 value it passes up is not stated in its contract, for the same reason.
- LibUdp.ProcessPacket: the TCNT1 value it passes up is not stated in its contract, for the same reason.
- Rules.Engine.CallbackReply: the TCNT1 value it returns is not stated in its contract, for the same reason.
- Helper.DivRoundUp: unbounded; the C macro's `n + d - 1` wraps in a 16-bit `int` from n = 0x7FFF on, a value the ring's record lengths (below 0x4000) never reach.
- LibEthernet.GenerateHeaderIP: the ARP request frame written on a cache miss is a parameter, as its generator `ARP_GenerateRequest` is not part of this model.

## Findings

| source | as written | input that shows it | evidently intended | confidence | as-written member | corrected member |
|---|---|---|---|---|---|---|
| PacketBuffer.c:153-154 | shrinking the last record moves `NextWriter` back without writing `EndOfRing` there | a ring whose last record shrinks from 18 to 2 bytes: the word at the new writer is a stale `Output` state | `EndOfRing` at the new `NextWriter`, as the extend branch writes at line 174 | not executed; high | PacketBuffer.ShrinkLastLeavesStaleWord | PacketBuffer.RingBuffer.Resize |
| Lib/ARP.c:93-96 | `writePosition < ARRAY_SIZE(ARP_Table)` lets `writePosition` reach 10 | ten new hosts; the eleventh is stored past the end of the ten-entry table (the same code at c++/net/ARP.c:83-86) | round robin over entries 0 to 9 | not executed; high | Arp.PositionAsWrittenOverruns | Arp.Table.Learn |
| c++/net/ARP.c:40 | `COPY_ARRAY(6, ARP->SenderIP, IP_OWN)` copies six bytes into a four-byte field | any request generated: the first two bytes of the broadcast TargetMAC are overwritten | copy four bytes | not executed; high | CppArp.RequestNotBroadcast | CppArp.WriteHeader |
| c++/endianness.h:19-21 | the 8-byte `FromBytes` takes `e` as `int8_t`, which sign-extends | bytes 0,0,0,0,0x80,0,0,0 give 0xFFFFFFFF80000000 | `uint8_t e`, giving 0x80000000 | not executed; high | ByteSwapping.FromBytes8SignExtends | ByteSwapping.FromBytes8 |
| IPcheck.c:116 | `iplength <= PACKET_LEN_MIN - 14` rejects a 28-byte datagram | a UDP datagram without payload, Total Length 28, for the station | accept from 28 bytes on, as `PACKET_LEN_MIN` (14 + 28) says and `net/PacketCheck.c` does | not executed; medium | IpCheck.MinimumDatagramRejected | PacketCheck.CheckedIPv4 |
| PacketBuffer.c:264 | `Packet_ReleaseInput` sets `InputReader` to the record after the released one, even when that record lies behind `InputReader` | a waiting input record A at `InputReader` and, behind it, the unfinished record B that `USB.c:189-192` releases after a short read: `InputReader` jumps past A, which no later `Packet_GetInput` returns and on which `Packet_GetOutput` stops for good | move `InputReader` only when it is on the released record | not executed; medium | PacketBuffer.ReleaseInputSkipsWaiting | PacketBuffer.RingBuffer.ReleaseInput |
| resources.h:21 | `PACKETBUFFER_LEN` is `PACKET_LEN_MAX`, with no room for the state word | a 590-byte frame accepted by the pre-check, allocated in an empty ring: its record ends one slot past `RingBuffer.End` and the assert at `PacketBuffer.c:96` fails | `PACKET_LEN_MAX + 2` | not executed; high | PacketBuffer.LargestFrameOverruns | PacketBuffer.CheckedFramesFit |
| c++/Queue.cpp:83-87 | `InputQueue::Push` asserts the Output bit and or-s in Input | any record it accepts becomes `Skip`, which no Pop returns | mark an unfinished record Input | not executed; high | Queue.InputPushMakesSkip | Queue.RingBuffer.InputPush |
| c++/Queue.cpp:89-95 | `OutputQueue::Push` writes `len` or-ed with Input | a ring holding one input record at the input reader: after the push the record is behind `inputReader` and still Input, so no Pop returns it | write `len` or-ed with Output | not executed; high | Queue.OutputPushStrandsRecord | Queue.RingBuffer.OutputPush |
