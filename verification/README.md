# SmartConfig link: a verified model

SmartConfig hands Wi-Fi credentials to a device that is not on the network yet. The sender puts a
message between two 0x7F flags, cuts it into nibbles and broadcasts one UDP datagram per nibble; the
*length* of the datagram carries the nibble and an 8-bit tag. The receiver sits in monitor mode,
recovers the length of every data frame it captures, accepts a length only when its tag chains to the
last nibble and to its own counter, packs the nibbles into bytes and calls back at the end flag.

The project models three parts of the repository and proves what they are for.

**Bit cursor** (`Bits`, `BitBuffer`, `BitStream`, `ExpGolomb`, `Fields`). `BitStream` is the mutable
cursor over a byte array. Each of its operations is specified on one sequence of bits and one bit
position. C's `&`, `|`, `^`, `<<` and `>>` are defined bit by bit on natural numbers. The Exp-Golomb
codes are those of sections 9.1 and 9.1.1 of ITU-T H.264. A record of mixed fields, written at any bit
offset, reads back as it was, and every bit outside it is untouched (`Fields.WriteAndReadBack` does it on
the cursor itself).

**Length channel** (`Message`, `Sender`, `Receiver`, `Ring`, `Chain`, `Transfer`, `Resync`). `SmartLinkTx.Send`
and `SmartLinkRx.DecodeFrame` follow the code branch by branch. `Ring` is the receiver's memory as 512
nibbles with one write head: `Ring.RunRefines` shows that the byte-level decoder, with its two wrapping
counters, does on every run of captures what the ring does, through callbacks and wrap-around. `Chain` is
the protocol with the memory taken away, a sequence of accepted nibbles; `Transfer.RunFollowsChain` ties
the decoder to it up to the first callback. On top of it:

- for every 8-bit size, what the sender emits calls back on its last datagram with the payload
  *if and only if* the payload has 1 to 253 bytes and none behind the first is 0x7F;
- on a channel that loses, repeats and reorders frames and carries foreign ones, for every 8-bit size,
  every run is safe *if and only if* the payload, when it is sent whole, has no early flag and every frame
  in the air is harmless: it carries the right nibble wherever its tag would be accepted, and its tag is
  not awaited behind a message that never ends (for a message's own frames: equal tags carry equal nibbles);
- complete rounds of a message's frames deliver it, start flag included, after every history of the channel
  *if and only if* the message ends, does not end early, and every frame in the air is harmless to it;
- complete rounds call back with the payload after every history *if and only if* it has 1 to 253 bytes, no
  early flag, and every frame in the air is tolerable: harmless, but for one kind of frame that spoils only
  the start flag, which the callback does not show (`Resync.RxRecoveryIff`, `Resync.ExcusedExample`).

**Frame parser and receive loop** (`Radiotap`, `FullStack`). The radiotap/802.11 parser runs on the
cursor and gives the datagram length back. The three exact conditions hold of the receive loop too, over
captured frames: `FullStackDeliversIff`, `FullStackSafeIff` and `FullStackRecoversIff`, the last two for any
frames that fit into a captured frame the loop does not cut (`Hearable`).

Files match modules. `dafny verify dfyconfig.toml` checks everything.

## What the code does that its users may not expect

- The tag check is not enough on a lossy channel. For the payload "ga", frames 4 and 5 have the same
  tag and different nibbles: when frame 4 is lost, frame 5 is stored in its place, and no later frames
  make it good (`Chain.LettersNotSafe`). Which payloads are safe is decided by `Message.TagConsistent`,
  which a sender could evaluate beforehand; `Chain.ZeroByteIsSafe` shows one that is.
- After a callback the receiver goes on from where it stands: it starts over neither its index nor its
  buffer, and once the index has wrapped it ors new nibbles onto old ones (`Ring.RingStep`).
- The callback's length is the payload size plus 2. The bytes behind the payload are two zeros.
- An empty payload is never delivered. Sizes 254 and 255 wrap the 8-bit message length: nothing or
  only the start flag is sent (`Message.Sent`, `Transfer.LosslessTransferIff`).
- `bs_read_string` into the cursor's own memory can read back what it has just stored: two bytes of the
  memory 1, 2, 3 copied one place on are 1, 1 (`BitBuffer.CopyReadsBack`). `BitBuffer.CopiedInTimeIff` says
  exactly for which targets it does not.
- Datagrams of payloads of 39 to 253 bytes can exceed the 1500-byte packet buffer (`Message.FitsPacketIff`).
- A reset of the first nibble leaves it in `buffer[0]`, where the next first nibble is or-ed onto it. So a
  false first nibble d costs one round of the message when d < 8 and d is not 1, and every later one
  otherwise (`Chain.ResetIff`, `Resync.RxResetIff`).
- Only the first 1499 bytes of a captured frame are looked at, so that longer ones all give the same length
  (`FullStack.LongPacketsCut`).
- `bs_read_ue` tests for the end of the buffer before it counts a zero, so a code cut off in its
  zeros reads as one zero fewer (`ExpGolomb.UeTruncated`). `bs_write_ue(0xFFFFFFFF)` writes one zero bit.
- Comments that differ from the code: `src/smartlinktx.c:83-84` leave out the offset of 24;
  `src/bitstream.h:389` speaks of bytes where bits are read. The model follows the code.

## Model

| member | source | states |
|---|---|---|
| Bits.MaskedStore | src/bitstream.h:220-221 | clearing one bit with a mask and or-ing a bit in changes that bit and no other |
| Bits.XorStaysInBlock | src/smartlinktx.c:111-112 | xor with a nibble changes no bit above the low four |
| BitBuffer.PutBitsAt | src/bitstream.h:211-234 | after a write the bits of its range hold what was written, those past the end are dropped, every other bit of the buffer keeps its value |
| BitBuffer.PutBitsConcat | src/bitstream.h:227-234 | writing two bit strings one after the other is writing their concatenation |
| BitBuffer.WriteThenRead | src/bitstream.h:227-234 | n bits of v written inside the buffer read back as v mod 2^n, from any bit offset |
| BitBuffer.ReadSplit | src/bitstream.h:142-151 | reading n+m bits is reading n and then m, joined as (first) * 2^m + (second), past the end too |
| BitBuffer.BitsOfValueOf | src/bitstream.h:142-151 | the number read determines the bits it was read from |
| BitBuffer.AlignedRead | src/bitstream.h:164-175 | at a byte boundary eight bits are the byte there, and 0 past the end |
| BitBuffer.AlignedWrite | src/bitstream.h:238-249 | at a byte boundary writing eight bits stores the low byte of the value |
| BitBuffer.BulkWriteIsByteLoop | src/bitstream.h:331-340 | writing bytes one by one from a byte boundary, inside the buffer or past it, equals replacing a stretch cut off at the end |
| BitBuffer.BulkReadIsByteLoop | src/bitstream.h:320-329 | reading bytes one by one from a byte boundary gives the slice of the buffer |
| BitBuffer.CopiedInTimeIff | src/bitstream.h:371-387 | under the caller's guard, bytes read one at a time into the same memory are for every memory the bytes as they were iff at most one is read, or the target starts at or before the reader, behind all that is read, or behind the buffer |
| BitBuffer.CopyReadsBack | src/bitstream.h:381-384 | of the memory 1, 2, 3, 0 two bytes copied one place on are 1, 1 and not 1, 2 |
| BitStream.BitStream.constructor | src/bitstream.h:65-72 | a new cursor stands at bit 0, byte-aligned |
| BitStream.BitStream.Clone | src/bitstream.h:86-93 | a clone shares the memory and the position; its start is the source's current byte |
| BitStream.BitStream.BytePos | src/bitstream.h:104 | the bytes passed since the start, those behind the end not counted |
| BitStream.BitStream.BytesLeft | src/bitstream.h:106 | up to the end, bytes passed and bytes left make up the buffer from the start on; behind the end fewer than none are left |
| BitStream.BitStream.PeekU1 | src/bitstream.h:130-139 | the bit at the cursor, 0 past the end, cursor unmoved |
| BitStream.BitStream.ReadU1 | src/bitstream.h:108-122 | the bit at the cursor, 0 past the end; one bit forward |
| BitStream.BitStream.SkipU1 | src/bitstream.h:124-128 | one bit forward |
| BitStream.BitStream.WriteU1 | src/bitstream.h:211-225 | stores the low bit of v at the cursor, touches nothing else, one bit forward |
| BitStream.BitStream.ReadU | src/bitstream.h:142-151 | for n <= 32 the big-endian value of the next n bits; n bits forward for every n |
| BitStream.BitStream.SkipU | src/bitstream.h:153-160 | reaches the position ReadU reaches |
| BitStream.BitStream.WriteNext | src/bitstream.h:230-233 | one round of the write loop appends one bit to those stored |
| BitStream.BitStream.WriteU | src/bitstream.h:227-234 | for n <= 32 stores the low n bits of v, most significant first; n bits forward, nothing else in memory changed, for every n |
| BitStream.BitStream.ReadRu | src/bitstream.h:389-406 | the value ReadU would give, cursor unmoved |
| BitStream.BitStream.NextBits | src/bitstream.h:352-357 | the value ReadU would give, cursor unmoved |
| BitStream.BitStream.ReadU8 | src/bitstream.h:164-175 | both paths give the next eight bits and move eight bits |
| BitStream.BitStream.ReadU8n | src/bitstream.h:177-180 | moves 8n bits for every n, value for n <= 4 |
| BitStream.BitStream.WriteU8 | src/bitstream.h:238-249 | both paths store the low eight bits of v as eight bit writes would |
| BitStream.BitStream.NextBytes | src/bitstream.h:359-369 | in range the value of the next n bytes from the cursor's byte on, else 0, within 64 bits |
| BitStream.BitStream.ReadBytes | src/bitstream.h:320-329 | copies as many bytes as lie between cursor and end, to any target that does not overlap them, equal to as many byte reads, leaves the rest of the target; the cursor moves by the full length |
| BitStream.BitStream.WriteBytes | src/bitstream.h:331-340 | stores the clamped count from any source that does not overlap it and returns it; the effect of len byte writes |
| BitStream.BitStream.SkipBytes | src/bitstream.h:342-350 | reaches the position that skipping 8 bits a byte reaches; returns how many of the bytes passed over lie in the buffer |
| BitStream.BitStream.ReadString | src/bitstream.h:371-387 | succeeds exactly when strSize < size and the bytes from the cursor's byte on end within the buffer, else -1 and no effect; then the target holds the byte reads from any bit offset on, each stored before the next when it lies in the same memory |
| BitStream.BitStream.CountZeros | src/bitstream.h:187-190 | the loop counts what the scan counts and consumes one bit more |
| BitStream.BitStream.ReadUe | src/bitstream.h:182-194 | the scanned code's value for up to 30 counted zeros; the position behind 2z+1 bits always |
| BitStream.BitStream.ReadSe | src/bitstream.h:196-208 | an odd code number k is (k+1)/2, an even one -k/2, same position |
| BitStream.BitStream.WriteUe | src/bitstream.h:251-306 | for v <= 65534 the code of section 9.1; for every 32-bit v its length and that nothing else changes |
| BitStream.BitStream.WriteSe | src/bitstream.h:308-318 | for v from 1 to 32767 the code of 2v-1, for v from -32767 to 0 that of -2v |
| ExpGolomb.TableLengthIsBitLength | src/bitstream.h:253-302 | for every nonzero 32-bit v the four-way split with the table gives len with 2^(len-1) <= v < 2^len |
| ExpGolomb.SignedMapping | src/bitstream.h:196-208 | reader's and writer's signed mappings are inverse, both ways |
| ExpGolomb.CodeShape | src/bitstream.h:285-304 | a code is z zeros, a one and z more bits, z = floor(log2(v+1)) |
| ExpGolomb.DecodeCode | src/bitstream.h:187-193 | the scan of z zeros and a one finds z in spite of its end-of-buffer test |
| ExpGolomb.UeRoundTrip | src/bitstream.h:182-194 | a code inside the buffer, at any bit offset, reads back as its number and is consumed exactly |
| ExpGolomb.UeTruncated | src/bitstream.h:187-193 | of k zeros up to the end of the buffer k-1 are counted and the missing bits read as 0 |
| ExpGolomb.UeGivesUp | src/bitstream.h:187-193 | 32 zeros with more of the buffer behind them end the counting, and 65 bits are consumed |
| ExpGolomb.UeCanonical | src/bitstream.h:285-304 | re-encoding the number read from any code with up to 15 zeros reproduces its bits |
| ExpGolomb.UePrefixFree | src/bitstream.h:285-304 | no code is a proper prefix of another |
| ExpGolomb.SmallCodes | src/bitstream.h:251-306 | the codes of 0 to 4 are 1, 010, 011, 00100 and 00101 |
| ExpGolomb.SignsOfCodes | src/bitstream.h:196-208 | 010 reads as 1 and 011 as -1, and they are written so |
| Fields.WriteField | src/bitstream.h:227-318 | each kind of field write stores the field's code and nothing else |
| Fields.ReadField | src/bitstream.h:142-208 | each kind of field read gives the value and position of ReadKind |
| Fields.WriteRecord | src/bitstream.h:227-318 | the cursor writes any list of fields one behind the other, and nothing else |
| Fields.ReadRecord | src/bitstream.h:142-208 | the cursor reads any list of fields, each value and the end position as on the buffer |
| Fields.FieldReadsBack | src/bitstream.h:142-208 | a field whose code stands at the cursor reads back as its value and is consumed exactly |
| Fields.RecordRoundTrip | src/bitstream.h:142-318 | on the buffer, any list of fields that fits, written at any bit offset, reads back field by field, ends at the same bit, and leaves all other bits alone |
| Fields.WriteAndReadBack | src/bitstream.h:86-318 | a clone of the cursor reads back every record the cursor writes inside the buffer, both end at the same bit, no other bit changes |
| Message.TagOf | src/smartlinktx.c:111-112 | xor with a nibble keeps the tag in the counter's block of 16 |
| Message.LengthCarriesTagAndData | src/smartlinkrx.c:41-42 | the receiver cuts a frame's length into exactly the tag and the nibble it was made of |
| Message.LengthInNumbers | src/smartlinktx.c:108-115 | over 24, a frame's length holds from the top the frame's block of 16 modulo 256, the previous nibble xor-ed with the place in the block, and the nibble |
| Message.LetterLengths | src/smartlinktx.c:86-118 | the lengths of "q" are 31, 135, 239, 89, 111 and 71 |
| Message.LengthBound | src/smartlinktx.c:114-115 | frame t is at most 24 + 16 * ((t mod 256) with its low nibble full) + 15 long |
| Message.ShortPayloadsFit | src/smartlinktx.c:93-118 | every datagram sent for up to 38 bytes, or for the two sizes that wrap the message length, is at most 1303 long |
| Message.LongestShort | src/smartlinktx.c:107-118 | 38 bytes reach the bound of 1303 |
| Message.FitsPacketIff | src/smartlinktx.c:93-115 | of the 8-bit sizes all datagrams sent stay within the packet buffer, whatever the payload, iff the size is at most 38 or at least 254 |
| Message.FrameTooLong | src/smartlinktx.c:111-115 | of a payload that is sent whole, the frame behind a nibble 1111 at the start of a block from 80 on exceeds the packet buffer |
| Sender.SmartLinkTx.NextSequence | src/smartlinktx.c:111-112 | the 8-bit counter steps and wraps |
| Sender.SmartLinkTx.FramesOfByte | src/smartlinktx.c:108-115 | the two lengths of a message byte are the frames 2i and 2i+1 of the nibble stream |
| Sender.SmartLinkTx.SendByte | src/smartlinktx.c:107-118 | one round of the loop sends the two lengths of its byte |
| Sender.SmartLinkTx.Send | src/smartlinktx.c:86-124 | for every size the lengths sent are the first 2 * ((size+2) mod 256) frames of the stream, in order, the very first one 31 |
| Receiver.SmartLinkRx.constructor | src/smartlinkrx.c:129-131 | a new receiver has 512 zero bytes and 6 of address, both counters at 0, and has made no call |
| Receiver.SmartLinkRx.DecodeFrame | src/smartlinkrx.c:37-71 | the in-place step gives the state and the callback of the step function, for every length |
| Receiver.SmartLinkRx.StoreLowHalf | src/smartlinkrx.c:58-61 | the low nibble joins its byte, the index steps and wraps, the address is noted from the third byte on |
| Receiver.SmartLinkRx.CompleteByte | src/smartlinkrx.c:58-68 | the low-nibble branch: byte, index, address, end test and callback |
| Ring.HighStored | src/smartlinkrx.c:49 | or-ing a shifted nibble into a byte ors it into the high half, whatever is there, and changes no other nibble |
| Ring.LowStored | src/smartlinkrx.c:58 | or-ing a nibble into a byte ors it into the low half, whatever is there, and changes no other nibble |
| Ring.CountersAdvance | src/smartlinkrx.c:58-70 | the 8-bit index and the 8-bit counter go through their wraps as one place in a ring of 512 nibbles |
| Ring.DeliveredBytes | src/smartlinkrx.c:67 | the callback sees the bytes from index 1 on, as many as the index says |
| Ring.StepRefines | src/smartlinkrx.c:37-71 | on every length and from every state whose counters agree the decoder does what the ring does, and its counters agree again |
| Ring.RunRefines | src/smartlinkrx.c:37-71 | the same for every run, through any number of callbacks and wraps; the buffer behind byte 255 is never touched |
| Ring.EveryCall | src/smartlinkrx.c:60-68 | every callback of every run brings 3 to 255 bytes with a NUL in front of the last, and the address of a capture |
| Ring.StepBits | src/smartlinkrx.c:44-61 | a step without a callback ors the four bits of an accepted length into one half of the byte at the index and leaves every other bit |
| Ring.RunKeeps | src/smartlinkrx.c:44-61 | no run clears a bit of the buffer before it calls back, through the wrap of the index too |
| Ring.FirstTaken | src/smartlinkrx.c:44-49 | at the start of the buffer, with the index come round too, every length from 24 to 39 is taken and or-ed onto byte 0 |
| Ring.SecondLength | src/smartlinkrx.c:51-58 | behind a first nibble any length either continues it, or starts the first byte over, unless its nibble is a 7; what is stored stays |
| Chain.TagSeparation | src/smartlinkrx.c:44-56 | a receiver holding s nibbles accepts frame t only if s and t lie in the same block of 16 mod 256 |
| Chain.EarlyEndIffEarlyFlag | src/smartlinkrx.c:65 | a proper prefix of a payload's stream looks ended iff a byte behind the first is a flag |
| Chain.NextFrameAccepted | src/smartlinkrx.c:44-58 | the frame waited for is accepted and adds its nibble |
| Chain.OrderedRun | src/smartlinkrx.c:44-70 | frames in order add up to the first prefix that looks ended |
| Chain.LosslessIff | src/smartlinkrx.c:44-70 | the lossless run of any nibble stream delivers exactly it, on its last frame, iff it looks ended and no proper prefix does |
| Chain.LosslessPayloadIff | src/smartlinkrx.c:44-70 | for what is sent of a payload, at every 8-bit size: iff it has 1 to 253 bytes and no early flag |
| Chain.OwnFramesHarmless | src/smartlinkrx.c:44-56 | a message's own frames are harmless to it iff equal tags carry equal nibbles, the tag behind a message that never ends included |
| Chain.AnyFrameKeepsPrefix | src/smartlinkrx.c:44-58 | any harmless frame keeps the stored nibbles a prefix of the message, the reset with its stale nibble included |
| Chain.FrameProgress | src/smartlinkrx.c:52-58 | past the start byte no frame takes the receiver back; the start frame itself does not reset it |
| Chain.SafeRun | src/smartlinkrx.c:37-71 | any run of harmless frames from a correct state is safe |
| Chain.BreakingRun | src/smartlinkrx.c:37-71 | when the condition is broken some run of at most one frame more than the message goes visibly wrong |
| Chain.LossySafetyIff | src/smartlinkrx.c:37-71 | for any set of frames in the air that contains the message's own, all runs are safe iff no proper prefix looks ended and all frames are harmless |
| Chain.OwnFramesSafeIff | src/smartlinkrx.c:37-71 | at every 8-bit size, under loss, duplication and reordering of the sent frames all runs are safe iff equal tags carry equal nibbles and there is no early flag when the payload is sent whole |
| Chain.CoveringRunDelivers | src/smartlinkrx.c:44-70 | a receiver that is ahead gets the message from any run in which the remaining frames occur in order |
| Chain.Recovery | src/smartlinkrx.c:44-70 | after any history of harmless frames a complete round, with other frames among it, delivers the message |
| Chain.LosslessIsCompleteRound | src/smartlinktx.c:107-121 | what the sender emits is a complete round |
| Chain.NeverRecovers | src/smartlinkrx.c:44-58 | a misleading frame in the place of any frame but the first is never made good by any continuation |
| Chain.FalseStart | src/smartlinkrx.c:50-57 | a false first nibble costs the receiver both start frames, so the round behind it is not delivered |
| Chain.RecoveryIff | src/smartlinkrx.c:37-71 | for any set of frames that contains the message's own, complete rounds deliver after every history iff the message ends, not early, and all frames are harmless |
| Chain.OwnFramesRecoverIff | src/smartlinkrx.c:37-71 | at every 8-bit size, among the sent frames: iff the payload has 1 to 253 bytes, no early flag, and equal tags carry equal nibbles |
| Chain.ResetIff | src/smartlinkrx.c:44-58 | behind a false first nibble d two rounds of an undisturbed message deliver it iff d < 8 and d is not 1 |
| Chain.ZeroByteIsSafe | src/smartlinkrx.c:37-71 | the payload of one zero byte meets all conditions, so that it is safe and recovers |
| Chain.RunOfAccepted | src/smartlinkrx.c:44-58 | past the start byte a run equals the run over its accepted frames and never loses nibbles, for any frames |
| Chain.TwinsNotSafe | src/smartlinkrx.c:44-56 | a high nibble one below the low nibble in front of it: with its frame lost the next one is stored instead, and no continuation delivers the message |
| Chain.LettersNotSafe | src/smartlinkrx.c:44-56 | for "ga" this is the run in which frame 4 is lost |
| Transfer.CallBytes | src/smartlinkrx.c:65-67 | the callback of a message sees the bytes between its flags, the end flag zeroed, and one zero behind |
| Transfer.RunFollowsChain | src/smartlinkrx.c:37-71 | on arbitrary captures decoder and chain agree up to the first callback, while the nibbles fit the byte index |
| Transfer.FirstCall | src/smartlinkrx.c:67 | the first callback of all is the one a run stops at |
| Transfer.LosslessTransferIff | src/smartlinkrx.c:37-71 | for every 8-bit size, what Send emits, fed to a fresh receiver, calls back on the last datagram with payload, NUL and length n+2 iff 1 <= n <= 253 and no early flag |
| Transfer.LosslessCounters | src/smartlinkrx.c:44-70 | before that every datagram is accepted and the counters follow the sender's through the wrap |
| Transfer.StateAfterDelivery | src/smartlinkrx.c:58-70 | behind the callback of a lossless transfer the index is n+2, the counter 2n+4 mod 256, and the buffer holds start flag, payload and zeros |
| Transfer.LetterArrives | src/smartlinkrx.c:37-71 | the lengths 31, 135, 239, 89, 111 and 71 bring "q", NUL, 0 and the length 3 |
| Transfer.LossyTransferIff | src/smartlinkrx.c:37-71 | for every 8-bit size and any set of frames in the air that contains the sent ones, the receiver is safe on every run of captures (stored nibbles, delivered bytes, address) iff the payload, when sent whole, has no early flag and all frames in the air are harmless |
| Resync.PlausibleRun | src/smartlinkrx.c:37-71 | any run of tolerable frames keeps all that is stored behind the start flag right, and delivers nothing of another length |
| Resync.RoundDelivers | src/smartlinkrx.c:44-70 | from every state such a run leaves a complete round delivers |
| Resync.DoomedHistory | src/smartlinkrx.c:44-58 | for every frame in the air that is not tolerable some history leaves a lossless round too short or makes it store a wrong nibble behind the start flag |
| Resync.WrongRun | src/smartlinkrx.c:37-71 | once that nibble is stored the round's captures do not bring the payload, through the wrap of index and buffer too |
| Resync.RecoveredTransfer | src/smartlinkrx.c:37-71 | from whatever a run of tolerable captures left in the receiver a complete round calls back with the payload and the address of the capture that completed it |
| Resync.RxRecoveryIff | src/smartlinkrx.c:37-71 | for every 8-bit size and any set of frames in the air that contains the sent ones, complete rounds bring the payload after every history iff it has 1 to 253 bytes, no early flag, and all frames in the air are tolerable |
| Resync.RxOwnFramesRecoverIff | src/smartlinkrx.c:37-71 | among the sent frames: iff it has 1 to 253 bytes, no early flag, and equal tags carry equal nibbles |
| Resync.ExcusedExample | src/smartlinkrx.c:37-71 | with a foreign frame of tag 6 and nibble 2 beside those of "q" rounds bring the payload, but not always the right start flag |
| Resync.RxResetIff | src/smartlinkrx.c:37-71 | the same on captures: the payload comes behind a whole start flag iff d < 8 and d is not 1 |
| Resync.LetterAfterFalseStart | src/smartlinkrx.c:37-71 | the length 26 and the lengths of "q" twice bring "q" |
| Radiotap.SkipHeader | src/wlan80211.c:17-21 | the cursor is byte-aligned at the 802.11 header: at the byte the header length names, or at byte 3 when the length is less |
| Radiotap.ReadSource | src/wlan80211.c:29-48 | the six bytes from 16 behind the start of the 802.11 header on, zeros past the end, 22 bytes consumed |
| Radiotap.RadiotapHeader | src/wlan80211.c:5-51 | with l the byte 2 and the 802.11 header at byte l, or 3 when l is less: for a first byte of 0x08 there size - l - 76 and the address 16 bytes on, else -1 and the address kept; type stored |
| FullStack.ReceiveRawPacket | src/sockets.c:46-55 | the same of the first 1499 bytes, or of the whole packet when it is no longer; nothing received gives 0 |
| FullStack.CapturedInNumbers | src/sockets.c:46-55 | what the loop captures of any packet, in the same numbers |
| FullStack.OtherHeaders | src/wlan80211.c:17-27 | a frame whose 802.11 header does not start with 0x08, or lies behind the end, gives -1; a header length below 3 puts that header at byte 3 |
| FullStack.LongPacketsCut | src/sockets.c:49-50 | packets with the same first 1499 bytes give the same length and address |
| FullStack.LastByteCounts | src/sockets.c:49-50 | a data frame of 1499 bytes or more gives 1499 - l - 76, its first 1498 bytes one less |
| FullStack.ProcessOne | src/smartlinkrx.c:81-84 | one turn decodes a positive length and ignores everything else |
| FullStack.Loop | src/smartlinkrx.c:80-85 | the loop's state and callbacks are those of all turns in order |
| FullStack.Process | src/smartlinkrx.c:73-87 | the same from the receiver's state on entry |
| FullStack.Receive | src/smartlinkrx.c:107-148 | initialisation and the loop together |
| FullStack.TurnsDecodeCaptures | src/smartlinkrx.c:80-85 | the loop decodes exactly the captures with positive length |
| FullStack.WrappedLength | src/wlan80211.c:43-50 | a data frame of up to 1499 bytes around a datagram gives back the datagram's length and the six bytes at l + 16 |
| FullStack.HearableIff | src/wlan80211.c:5-51 | a frame is shown by some captured frame iff a length from 1 to 1423 shows it |
| FullStack.ShortFramesFit | src/sockets.c:49-50 | what is sent for up to 38 bytes, or for 254 and 255, behind headers of up to 120 stays within the receive limit |
| FullStack.FullStackDeliversIff | src/smartlinkrx.c:73-87 | for every 8-bit size, over the captured frames of a lossless transmission, all within the receive limit, the loop calls back exactly once, with payload and the last frame's address, iff the payload has 1 to 253 bytes and no early flag |
| FullStack.ShortFullStackDeliversIff | src/smartlinkrx.c:73-87 | for sizes up to 38 and from 254 on and headers of up to 120 nothing about frame sizes need be assumed |
| FullStack.AnyTrafficSafe | src/smartlinkrx.c:73-87 | for every 8-bit size, any traffic of ignored and harmless captured frames leaves the loop safe |
| FullStack.AnyTrafficRecovers | src/smartlinkrx.c:73-87 | when traffic of ignored and tolerable captured frames holds a complete round of the message from some capture on, the loop's first callback brings the payload and the address of the capture that completed it |
| FullStack.FullStackSafeIff | src/smartlinkrx.c:73-87 | for every 8-bit size and any hearable frames in the air, the sent ones among them, the loop is safe whatever is captured iff the payload, when sent whole, has no early flag and all frames in the air are harmless |
| FullStack.FullStackRecoversIff | src/smartlinkrx.c:73-87 | under the same assumption, a complete round in whatever is captured makes the first callback bring the payload iff it has 1 to 253 bytes, no early flag, and all frames in the air are tolerable |
| FullStack.ShortTrafficIff | src/smartlinkrx.c:73-87 | up to 38 bytes, with only the sent frames in the air, both hold iff there is no early flag and equal tags carry equal nibbles, recovery for 1 byte or more |

## Left out

- Sockets, ioctl, interface set-up, channel frequencies, threads, locks, delays and logging: operating-system plumbing. Datagrams sent are a recorded sequence of lengths, callbacks a recorded sequence of deliveries, captured frames an argument of the loop; a poll that returns nothing is an empty packet.
- Heap management: the sender's message buffer has the intended `size + 2` bytes; allocation failure and null arguments are not modelled.
- Undefined shifts: in `bs_read_u`, `bs_write_u`, `bs_read_ue` and `bs_write_ue` a shift by 32 or more has an unspecified result, so beyond that only positions and the untouched part of memory are claimed.
- Transfer.RunFollowsChain: stops at the first callback and at 511 nibbles, where the chain of one message ends; `Ring.RunRefines` goes on through both.
- Negative `sendlen - 24` is shifted arithmetically, as compilers do where C leaves it to them.
- `bs_read_f`, `bs_write_f`, `bs_new` and `bs_free` only forward to modelled operations or to the heap.
- The macros and structs of `src/ieee80211.h` other than the address layout at lines 63-72: unused by the code.
