# OreSat firmware: verified models

Dafny models of the parts of the OreSat firmware in which an error would be
hard to see in any one function, and proofs of what those parts guarantee
together. `dafny verify dfyconfig.toml` checks everything.

| Files | Component |
|---|---|
| Flash, Remote, Bootloader | CAN firmware updater: erase, write, verify and retry on a remote node that may lose power at any moment |
| CanTransmit, CanLedger, CanOverflow, CanStatus, CanModules | CANopen driver, transmit side: counter, full flags and three mailboxes shared by threads and an interrupt |
| CanReceive | CANopen driver, receive side: hardware filter path and linear search |
| Synthesizer, SynthesizerDriver | SI41XX divider arithmetic and the Set functions |
| RadioTransmit, RadioRaw, RadioReceive, RadioFifo, RadioLink | AX5043 FIFO: chunked and raw transmission, reassembly of received frames, packets from one radio to another |
| RadioModes | AX5043 driver modes and their nested operations |
| Words, Folds, Crc, FileCrcs | CRC-32 in byte-table, nibble-table, bitwise and streaming form |
| Bits8, I2cBus, OpdI2c | bit-banged I2C master behind a port expander, and what a listening device sees |
| Wrappers, Bytes, Sequences | shared types, and the flattening of a sequence of parts |

## Main results

**Firmware update.** `Bootloader.Updater.UpdateM0` carries three guarantees for
every pattern of lost, refused and half-finished commands. The first is about
every content the flash ever has: it is the original one with at most the
header page under erasure, then the header reads as erased, then every byte
behind the header is the image's (`Phases`). When a page erase is atomic, the
first phase is exactly the untouched flash, so that every state is crash
consistent; `ConsistentIffAtomic` shows that this needs an atomic erase. The
second is about success: nothing is sent to a node that does not announce
itself, and once it has, an update that fits the flash succeeds unless at least
three commands that could have been carried out were not acknowledged. The
third is the exact content after success, byte by byte over the whole flash
(`Updated`). Programming ANDs
bits, so failed attempts matter: `RetryIsIdempotent` shows that any number of
them followed by one success is one success.

**CANopen transmission.** The driver is a transition system over checks, sends,
mailbox completions with their interrupt, removal of late synchronous PDOs and
re-initialisation, in any order; several mailboxes may complete for one
interrupt. `RunKeeps` proves for every run that the counter is the number of full
buffers plus the recorded excess, that a non-zero counter means an interrupt is
still to come, and that no frame is lost or submitted twice. `RunConserves` and
`StepEvolves` prove that every send has exactly one fate, settled once and by
the right event; `RunExcess` what the excess consists of. Anything may happen
between the unlocked overflow check of a send and its locked part; `UnreportedIff`
says exactly when a merged frame then goes unreported. `InitialStatus` explains
the status bits, the first-message flag and the inhibit flag over every run. The class `CanModule` has the firmware's fields and loops and
refines that system step by step.

**Synthesizer.** `CalcDiv` returns dividers that give the wanted frequency
exactly, for all 32-bit inputs, although the halving loop rounds down: what
rounding loses, times the multiplier, stays below the phase detector frequency
because the halved value is at least 500000 and the product is below 2^32.

**Radio.** `RadioModes` proves that nested operations restore mode and channel
(and TX the profile), and that each transmission turns the transmitter on once
and writes its packet meanwhile, on its channel and with its profile, over any
sequence of them (`Session`). `RadioTransmit`
and `RadioRaw` prove that what is written is the data supplied, cut at the
right places; `RadioReceive` that every complete packet is delivered once and
in order and no buffer leaks. `Loopback` joins them over any number of packets,
however the receiving radio divides them into chunks and whatever measurements
it puts around and between them.

**CRC.** Both table loops compute the bitwise division by the reflected
polynomial; the CRC of a concatenation is the CRC continued; `file_crc` does
not depend on how the reads were sized; and a change confined to any four
consecutive bytes always changes the CRC (`BurstDetected`). `Residue` and
`CheckValue` pin the complements and the polynomial.

**I2C.** Every transfer, acknowledged or refused, is seen by an independent
listener as one START, the bytes most significant bit first with one released
acknowledge slot each, and one STOP (NXP UM10204, sections 3.1.3 to 3.1.6), over
whole runs of transfers (`RunHeard`); bytes read are the levels sampled in
their slots.

## Where the code does something else than documented or expected

- `common/can_bootloader.c:865`: the erase loop runs while the address is at
  most base plus length, so a length that is a multiple of the page size erases
  one page more than the image occupies (`Job.EraseEnd`).
- `common/can_bootloader.c:891`: the header of 64 bytes is written and verified
  whatever the length, so an image of fewer than 64 bytes is never accepted
  (`Job.Length`, `Updated`).
- `common/can_bootloader.c:881`: the stated purpose of writing the header last
  is met if and only if a page erase is atomic (`ConsistentIffAtomic`). If an
  interrupted erase can leave a page half erased, the old header may be spoiled
  without reading as erased, wherever two of its bytes are programmed and the
  body is not the new image's already (`HalfErasedHeader`).
- `common/can_bootloader.c:406`: the page number is cut to one byte; harmless
  for flash of at most 255 pages (`PageAt`).
- `common/CO_driver.c:272`: the 16-bit counter can wrap. `SendKeepsIff` shows
  that this is the only step that breaks the invariant, `WrapLosesWakeup` gives
  a run that leaves a frame waiting with a zero counter and no completion to
  come: it stays there until further sends occupy the mailboxes and count again.
- `common/CO_driver.c:256-273`: the overflow check is outside the lock. A merged
  frame is always reported if no other thread sends the same buffer between
  check and lock, whatever else happens there (`MergedWasReported`). It goes
  unreported exactly when the buffer was empty at the check and such a send is
  still waiting at the lock (`UnreportedIff`), which does happen
  (`UnreportedMerge`, `UnreportedReachable`). The report does not imply a merge,
  since the buffer may be emptied in between.
- `common/CO_driver.c:206-207`: hardware filters ignore the mask; both dispatch
  paths match the same frames exactly when the mask compares every identifier
  bit (`MaskMatters`).
- `common/CO_driver.c:425`: the search index is 8 bits wide, so a search over
  `rxSize` buffers looks at `rxSize` modulo 256 of them. A frame then reaches its
  callback exactly if the first match is among those (`TruncatedSearch`); of 256
  buffers none is searched (`TruncatedMisses`).
- `common/si41xx.c:349`: documented divisors are 1, 2, 4 and 8; 16, 32, 64 and
  128 are accepted as well and set as 1 (`IFDivHonest`).
- `common/si41xx.c:315`: the shift by the output divider is taken modulo 2^32;
  `IFExact` gives the exact condition, and `WrongFrequency` a request that is
  accepted and gives another frequency (10 MHz reference, 2397483648 Hz, divider 1).
- `common/si41xx.c:138-147`: where the shift makes the target zero, that is where
  the frequency times the divisor is a multiple of 2^32, only the assertion
  stops the call; without assertions the subtraction loop never ends
  (`LoopEndsIff`, `ShiftedAway`: 0x20000000 Hz with divider 3).
- `common/ax5043.c:708-715`: with a callback, an initial buffer longer than the
  total length is not refused; the packet is then complete only if its length is
  a multiple of 125 (`Transmit`), for raw transmission of 128 (`TransmitRaw`);
  `Overshoot` is a packet of 127 bytes from a first buffer of 130.
- `common/ax5043.c:678-682`: when the PLL does not lock, TX returns with
  `tx_lock` held and the transmit profile set (`Transmit` in `RadioModes`).
- `common/ax5043.c:1042-1057`: SetFreq reports a ranging error if and only if it
  is not entered while receiving; otherwise the error is cleared again on the
  way back. Entered in READY it leaves the chip in standby on the channel that
  was ranged (`SetFreq`).
- `common/ax5043.c:943-944`: SetProfile ranges channel B and then channel A, and
  the second clears the error of the first: a failure on channel B is never
  reported, one on channel A exactly as by SetFreq (`SetProfile`).
- `common/ax5043.c:761-763`: a driver may be started without a profile
  (`common/ax5043.c:478`). A transmission with a profile on it ends in
  SetProfile with a null pointer; that a current profile exists is therefore
  required of `Transmit`, and of `Session` before each such transmission.
- `common/opd.c:221-225`: an acknowledge is only accepted in the first three
  looks; a fourth is made and ignored (`Acked`, `Refused`). A refused transfer
  leaves `rxbuf` as it was and is not reported to the caller, so
  `common/opd.c:283-285` then compares an unset byte.

## Assumptions

A positive acknowledgement of the remote node is truthful, and a read whose two
acknowledgements arrived delivered all its data frames; the updater does not
check the number of bytes received. The read callback may fail but returns only
slices of one image. A completion interrupt follows every mailbox completion
and frees at least one mailbox. The radio never continues a packet it has not
started or has been told to abort; for packets sent from one radio to another,
the receiving one presents the bytes sent between a start and an end flag, in
chunks of its own. Clock lines of the I2C bus rise when
released, a transfer sends at least one byte and begins on an idle bus, and SDA
and SCL lowered in one register write count as a falling clock.

## Model

| member | source | states |
|---|---|---|
| Flash.RetryIsIdempotent | common/can_bootloader.c:683-695 | any partially applied attempts followed by one success leave what one success alone leaves |
| Remote.FramesRoundTrip | common/can_bootloader.c:498-520 | a write of n bytes is ceil(n/8) frames of 1 to 8 bytes whose concatenation is the data |
| Remote.RemoteNode.DataFrame | common/can_bootloader.c:509-516 | whatever part of the frame takes effect, the flash only moves towards the data sent so far |
| Remote.RemoteNode.FinishWrite | common/can_bootloader.c:522-529 | an acknowledged write of all frames is complete; an unacknowledged one is some part of it |
| Remote.RemoteNode.Erase | common/can_bootloader.c:393-423 | an acknowledged erase leaves the page blank; otherwise any intermediate state of that page, nothing else |
| Remote.RemoteNode.ReadMemory | common/can_bootloader.c:324-384 | a completed read answers with the frames of the flash content; a read never changes it |
| Bootloader.ConsistentIffAtomic | common/can_bootloader.c:881 | every history of erasing the header page leaves the flash untouched, its header erased or its body complete, if and only if a page erase is atomic |
| Bootloader.HalfErasedHeader | common/can_bootloader.c:864-878 | a concrete half-erased header that is none of the three |
| Bootloader.ChunkLength | common/can_bootloader.c:767-774 | chunks have 1 to 64 bytes, never pass the end, and only the last is short |
| Bootloader.PageAt | common/can_bootloader.c:866-867 | the one-byte page number addresses the page meant, for flash of up to 255 pages |
| Bootloader.EraseEndIs | common/can_bootloader.c:864-878 | the erased pages end at the first page boundary behind the image, one page later for a multiple of the page size |
| Bootloader.AlignedFits | common/can_bootloader.c:864-897 | every page-aligned update whose pages are in flash fits |
| Bootloader.JoinedHolds | common/can_bootloader.c:349-367 | the bytes joined are the ones in flash at the address read |
| Bootloader.Updater.CopyFrame | common/can_bootloader.c:362-365 | the frame is appended, and nothing is written past the end of the destination |
| Bootloader.Updater.JoinFrames | common/can_bootloader.c:356-367 | the destination holds the concatenation of the frames that arrived, cut at its length |
| Bootloader.Updater.ReadData | common/can_bootloader.c:324-384 | on success the destination equals the flash at the address |
| Bootloader.Updater.ErasePage | common/can_bootloader.c:393-423 | on success the page is blank; in any case only that page moved towards blank |
| Bootloader.Updater.WriteMemory | common/can_bootloader.c:471-530 | on success the buffer has been programmed in frames of 8; in any case the flash only moved towards it |
| Bootloader.Updater.VerifyConnection | common/can_bootloader.c:646-660 | true exactly after a read or an announcement; false only after five of each have failed, counted once; the flash is not touched |
| Bootloader.Updater.ErasePageReliable | common/can_bootloader.c:665-678 | the guarantees of one erase hold for up to three attempts; false only after three of them or for want of a connection |
| Bootloader.Updater.WriteMemoryReliable | common/can_bootloader.c:683-695 | success after failed attempts leaves what one attempt would have left; on erased flash, exactly the bytes of the buffer; false only after three attempts or for want of a connection |
| Bootloader.Updater.ReadDataReliable | common/can_bootloader.c:700-713 | success after failed attempts returns the flash content; false only after three attempts or for want of a connection |
| Bootloader.Updater.CompareBlock | common/can_bootloader.c:739-746 | all bytes of the block up to the end agree, or the first that differs |
| Bootloader.Updater.VerifyMemoryReliable | common/can_bootloader.c:718-750 | true only if every byte of the buffer is in flash; false only if a byte differs or three commands failed |
| Bootloader.Updater.WriteSubsection | common/can_bootloader.c:763-790 | on success exactly the image from start to total has been programmed, so that erased flash holds it; in any case the flash only moved towards it |
| Bootloader.Updater.VerifySubsection | common/can_bootloader.c:804-830 | true only if the flash holds the image from start to total; false only if it does not, the image cannot be read, or three commands failed |
| Bootloader.Updater.ErasePages | common/can_bootloader.c:864-878 | on success the pages of the image are blank and the rest is unchanged; at every moment the header page goes first |
| Bootloader.Updater.WriteImage | common/can_bootloader.c:881-897 | the header is touched only after the whole body has been verified |
| Bootloader.Updater.WriteErased | common/can_bootloader.c:881-897 | from erased pages, writing keeps the phases and on success gives the updated flash |
| Bootloader.Updater.UpdateM0 | common/can_bootloader.c:845-907 | crash consistency at every moment of the update and at every exit, in phases for any flash and as untouched, erased header or complete body for one with atomic erase; on success every byte of the image in place and every byte outside the erased pages unchanged; nothing sent without an announcement; success whenever the update fits and fewer than three commands fail |
| CanTransmit.StepKeeps | common/CO_driver.c:222-483 | every step keeps the invariant while the counter is below its overflow |
| CanTransmit.InitialInv | common/CO_driver.c:107-120 | module initialisation establishes the invariant |
| CanTransmit.RunKeeps | common/CO_driver.c:222-483 | over every run: counter = full buffers + excess, one fate for each send, no frame submitted twice or lost, no lost wakeup |
| CanTransmit.SendKeepsIff | common/CO_driver.c:251-277 | a send keeps the invariant if and only if the counter is below 65535 |
| CanTransmit.WrapLosesWakeup | common/CO_driver.c:272 | 65539 sends of one buffer leave it full with a zero counter and no interrupt to come |
| CanTransmit.Drain | common/CO_driver.c:457-481 | with no new sends, n interrupts submit the n lowest full buffers in index order and leave the rest |
| CanTransmit.CanDrain | common/CO_driver.c:457-481 | from every reachable state the completions that empty the queue are to come, one for each full buffer |
| CanTransmit.WakeupToCome | common/CO_driver.c:264-274 | in every reachable state something waiting implies a busy mailbox |
| CanTransmit.Resynchronise | common/CO_driver.c:478-480 | an interrupt that finds no full buffer brings counter and excess to zero |
| CanLedger.StepEvolves | common/CO_driver.c:222-483 | every step adds a fate exactly for a send, keeps settled fates, and settles waiting ones only by the event meant for it |
| CanLedger.RunConserves | common/CO_driver.c:222-483 | over every run there are as many fates as sends, and a settled fate never changes |
| CanLedger.ClearRemoves | common/CO_driver.c:281-315 | afterwards no synchronous frame waits and all other buffers are unchanged; late PDOs are reported exactly if one was waiting or the inhibit flag was set, which RunFlag explains |
| CanStatus.RunSyncFlag | common/CO_driver.c:242-243 | over every run a buffer has the sync flag of its last initialisation |
| CanStatus.StepFlag | common/CO_driver.c:264-315 | after a step that gave a frame to the hardware the inhibit flag is the sync flag of the buffer it came from; an interrupt that submits nothing and a clear reset it; other steps leave it |
| CanStatus.RunFlag | common/CO_driver.c:264-315 | the same over every run |
| CanStatus.RunOverflow | common/CO_driver.c:255-262 | the overflow bit is set exactly by a check that finds its buffer full after a first interrupt |
| CanStatus.RunLate | common/CO_driver.c:281-315 | late PDOs are reported exactly after a clear that finds a synchronous frame waiting, or given to the hardware with no interrupt since |
| CanStatus.InitialStatus | common/CO_driver.c:107-120 | from initialisation the run alone explains all four flags, and no overflow is reported before a first interrupt |
| CanLedger.RunExcess | common/CO_driver.c:251-277 | over a run without a resynchronisation the excess of the counter grows by exactly the merged sends and re-initialised full buffers |
| CanOverflow.MergedWasReported | common/CO_driver.c:255-274 | with any completions, clears, re-initialisations and sends of other buffers between check and lock, a merged send was reported |
| CanOverflow.UnreportedIff | common/CO_driver.c:255-274 | a merge goes unreported if and only if the buffer was empty at the check and a send of the same buffer made since is still waiting |
| CanOverflow.UnreportedMerge | common/CO_driver.c:255-274 | with busy mailboxes, one overtaking send of the same buffer makes an unreported merge |
| CanOverflow.UnreportedReachable | common/CO_driver.c:255-274 | a state in which this happens is reached from initialisation |
| CanModules.CanModule.constructor | common/CO_driver.c:107-120 | the initial state of the transition system |
| CanModules.CanModule.SubmitFirst | common/CO_driver.c:465-473 | the part of the interrupt that submits a buffer is the whole interrupt step |
| CanModules.CanModule.TxCallback | common/CO_driver.c:442-483 | the search loop performs the interrupt step of the system |
| CanModules.CanModule.Complete | common/CO_driver.c:442-483 | completions and their interrupt are one step |
| CanModules.CanModule.Send | common/CO_driver.c:251-277 | a send is a check, then any steps of other threads and interrupts, then a locked step; the error is returned exactly if the buffer was full at the check |
| CanModules.CanModule.CheckOverflow | common/CO_driver.c:255-262 | the unlocked check is a step of its own |
| CanModules.CanModule.LockedPart | common/CO_driver.c:264-274 | the locked part, with completions while the lock is held, is one step |
| CanModules.CanModule.ClearPendingSyncPDOs | common/CO_driver.c:281-315 | the loop performs the clear step |
| CanModules.CanModule.TxBufferInit | common/CO_driver.c:222-247 | the init step, with null returned exactly for an index out of range |
| CanReceive.SetEntryAt | common/CO_driver.c:201-207 | the map from buffer index to bank, register and half is injective and numbered as the hardware numbers matches |
| CanReceive.MatchIndex | common/CO_driver.c:413-420 | the lowest listed entry that accepts the frame, or none |
| CanReceive.FirstMatch | common/CO_driver.c:424-431 | the first buffer that matches, or none |
| CanReceive.BufferMatches | common/CO_driver.c:190-195 | a buffer matches exactly the frames with its RTR bit that have the wanted value in every identifier bit its mask compares |
| CanReceive.MaskMatters | common/CO_driver.c:195-207 | entry and buffer accept the same frames if and only if the mask compares all 11 identifier bits |
| CanReceive.TruncatedSearch | common/CO_driver.c:424-431 | a search of the first n buffers calls what the whole search calls if and only if the first match is among them or there is nothing to call |
| CanReceive.TruncatedMisses | common/CO_driver.c:425 | 256 buffers of which every one matches, and none is found |
| CanReceive.PathsAgree | common/CO_driver.c:413-432 | for exact masks the filter path calls what the linear search calls, for every standard identifier and RTR bit |
| CanReceive.CanReceiver.constructor | common/CO_driver.c:101-117 | filters are used exactly if they fit, and start consistent with the buffers |
| CanReceive.CanReceiver.RxBufferInit | common/CO_driver.c:171-218 | one buffer and its filter entry change together and stay consistent; bad arguments change nothing |
| CanReceive.CanReceiver.Receive | common/CO_driver.c:396-440 | with exact masks and fewer than 256 buffers both paths call the first-match callback; the exact condition under which the 8-bit search does |
| Synthesizer.HalvedBounds | common/si41xx.c:153-156 | halving stops at floor(g/2^k) below 1000000, and at 500000 or more if any halving happened |
| Synthesizer.TooSmall | common/si41xx.c:153-159 | the result is too small exactly if the greatest common divisor was below 10000 |
| Synthesizer.LoopEndsIff | common/si41xx.c:145-151 | the subtraction loop ends if and only if the frequency is not zero |
| Synthesizer.PhaseDetectorBounds | common/si41xx.c:133-163 | 10000 r <= ref < 1000000 r for the divider r found, rounding included |
| Synthesizer.DividersExact | common/si41xx.c:153-163 | n * ref = r * freq despite the truncation |
| SynthesizerDriver.Synth.CalcDiv | common/si41xx.c:136-165 | finds the GCD without underflow, fails exactly if it is below 10000, and returns exact dividers for which the phase detector frequency ref/r itself is within its bounds |
| SynthesizerDriver.Synth.Set | common/si41xx.c:308-479 | accepts exactly when both dividers fit their registers; then the dividers give the frequency exactly, for IF exactly when its shift stays within 32 bits; the chip has exactly these dividers changed, the block powered, and no divider was written under power; a refusal changes nothing |
| SynthesizerDriver.Synth.Program | common/si41xx.c:331-336 | the four register writes change one output of the chip, while its block is powered down |
| SynthesizerDriver.RegisterWidths | common/si41xx.c:407-410 | the limits checked are exactly what the registers of the chip can store |
| SynthesizerDriver.Synth.SetIFDiv | common/si41xx.c:354-383 | accepts exactly the powers of two |
| SynthesizerDriver.IFDivHonest | common/si41xx.c:349-369 | the divisor set is the one asked for if and only if it is below 16 |
| SynthesizerDriver.IFExact | common/si41xx.c:308-326 | the intermediate frequency is exact if and only if the shift stays within 32 bits |
| SynthesizerDriver.WrongFrequency | common/si41xx.c:308-326 | a concrete request accepted with dividers for another frequency |
| SynthesizerDriver.ShiftedAway | common/si41xx.c:315 | a concrete frequency on which the loop never ends |
| RadioTransmit.Transmit | common/ax5043.c:700-743 | payloads concatenate to the supplied data; start on the first chunk only, end on the last only, no chunk over the write length; complete if and only if the first buffer is not too long or the length is a multiple of 125 |
| RadioTransmit.Overshoot | common/ax5043.c:700-743 | a concrete first buffer that overshoots the packet and leaves it without an end |
| RadioRaw.TransmitRaw | common/ax5043.c:848-875 | the same for raw writes of at most 128 bytes |
| RadioReceive.RxWorker.Fill | common/ax5043.c:217-255 | ownership of every buffer after a data chunk, and the frame handed on |
| RadioReceive.RxWorker.Process | common/ax5043.c:215-283 | one pass keeps ownership, delivery and the content of the open packet |
| RadioReceive.RxWorker.Work | common/ax5043.c:184-291 | at exit no buffer is held, every buffer was freed or sent once, and the frames sent are all the packets that fit, in order, each the concatenation of its chunks |
| RadioFifo.StreamRoundTrip | common/ax5043.c:203-218 | the worker parses any stream of chunks back into those chunks, data and measurements, with their sizes in the header or in a byte of their own |
| RadioFifo.WrittenFormat | common/ax5043.c:723-732 | transmitted chunks have this format and carry their flags and data |
| RadioLink.DeliveredUnique | common/ax5043.c:215-255 | the chunks received determine the frames delivered |
| RadioLink.Deliveries | common/ax5043.c:215-255 | packets received in turn, in any chunks and with any measurements, are delivered in turn |
| RadioLink.InTurnWellFramed | common/ax5043.c:234 | what the worker asserts of its input holds for such receptions |
| RadioLink.Loopback | common/ax5043.c:700-743 | packets transmitted in turn and each received completely are delivered as exactly these frames, in order |
| RadioLink.EchoReceives | common/ax5043.c:723-732 | chunks presented as they were written are one such reception |
| RadioModes.Radio.Idle | common/ax5043.c:534-555 | no worker and powered down afterwards, unless already READY |
| RadioModes.Radio.Receive | common/ax5043.c:566-618 | receiving on the wanted channel with a worker, or READY with LOCKLOST if the PLL failed |
| RadioModes.Radio.SetFreq | common/ax5043.c:983-1066 | entered while receiving it restores mode and channel; only the ranged VCO value changes; a ranging error is left reported if and only if it occurred and the radio was not receiving |
| RadioModes.Radio.SetProfile | common/ax5043.c:908-958 | both channels are ranged, B first; entered while receiving it restores mode and channel, whatever the profile writes to channel and power mode registers; profile is the new one; a ranging error is left reported if and only if channel A failed and the radio was not receiving |
| RadioModes.Radio.Transmit | common/ax5043.c:633-776 | if the PLL locks, the transmitter is turned on exactly once and the whole packet is written meanwhile, on the channel and with the profile asked for and without a receive worker; mode, channel and profile are restored; if it does not, nothing is transmitted and the lock is kept |
| RadioModes.Radio.Session | common/ax5043.c:566-958 | any sequence of tuning, profile changes and transmissions puts exactly its packets on the air, each with its channel and profile, and leaves a receiving radio receiving as before with the last profile set |
| Crc.FourBits | common/lfs_util.c:22-23 | a lookup in the 16-entry table is four steps of the bitwise division |
| Crc.ByteStep | common/crc.c:135-137 | a lookup in the 256-entry table is eight steps of the bitwise division |
| Crc.Crc32Sw | common/crc.c:133-139 | the byte-table loop computes the bitwise CRC of any data from any start value |
| Crc.LfsCrc | common/lfs_util.c:10-27 | the nibble-table loop computes the same function |
| Crc.Crc32 | common/crc.c:141-150 | the complements on entry and exit make the block loop the CRC-32 continued from the start value |
| Crc.Streaming | common/crc.c:141-150 | the CRC of a concatenation is the CRC of the second part started from that of the first |
| Crc.BurstDetected | common/crc.c:141-150 | data that differ only within four consecutive bytes have the same CRC if and only if they are equal |
| Crc.Residue | common/crc.c:141-150 | data followed by their own CRC have the CRC 0x2144DF1C, for all data and start values |
| Crc.CheckValue | common/crc.c:141-150 | the digits 1 to 9 have the CRC 0xCBF43926 |
| Crc.ZeroByte | common/crc.c:141-150 | the byte zero has the CRC 0xD202EF8D |
| FileCrcs.File.Read | common/fs.c:945 | a read returns the next bytes of the file, zero only at its end |
| FileCrcs.FileSystem.FileRead | common/fs.c:935-951 | as Read, with the error code recorded |
| FileCrcs.FileSystem.FileCrc | common/fs.c:1117-1137 | fails exactly if a read fails; otherwise one CRC over the bytes from the current position to the end, however the reads were sized; after a failure that of the bytes before it |
| Bits8.PackBits | common/opd.c:194-212 | shifting a byte out from the top and in again restores it |
| Bits8.BitsPack | common/opd.c:230-241 | the bits shifted in are those of the byte |
| OpdI2c.Expander.SendStart | common/opd.c:154-163 | exactly a START, other pins unchanged |
| OpdI2c.Expander.SendStop | common/opd.c:165-176 | exactly a STOP with both lines released, other pins unchanged |
| OpdI2c.Expander.SendByte | common/opd.c:194-212 | eight clock pulses with the bits of the byte, most significant first |
| OpdI2c.Expander.Poll | common/opd.c:215-222 | low within three looks, or three highs and a look too many |
| OpdI2c.Expander.AwaitAck | common/opd.c:214-224 | one clock pulse with SDA released |
| OpdI2c.Expander.ReceiveBits | common/opd.c:230-241 | eight pulses with SDA released, whose sampled levels are the bits of the byte |
| OpdI2c.Expander.ReceiveByte | common/opd.c:230-253 | the byte, then one acknowledge pulse, released for the last byte |
| OpdI2c.Expander.SendAll | common/opd.c:192-227 | the bytes up to the first refused one, or all of them |
| OpdI2c.Expander.Transmit | common/opd.c:178-259 | the whole transfer as bus events, also when one buffer serves both directions; nothing at all for an invalid device; a refusal stops it and leaves the receive buffer |
| OpdI2c.ListenSent | common/opd.c:192-227 | a listener takes down exactly the bytes sent |
| OpdI2c.TransferHeard | common/opd.c:178-259 | one START, one STOP, no SDA change while SCL is high in between or as it rises, and exactly the bytes |
| OpdI2c.RunHeard | common/opd.c:178-259 | the same over every run of transfers |
| OpdI2c.TakenSensed | common/opd.c:229-254 | the bytes read are the bits sampled in their slots, in order |
| OpdI2c.AllBitsInjective | common/opd.c:229-254 | different bytes read come from different levels |

## Left out

- STM32 factory bootloader mode (`common/can_bootloader.c:178-215`, `common/can_bootloader.c:867-870`), the go command, option data and the serial log.
- The CPU identifier in an announcement, which the driver may compare with the wanted one; an announcement is heard or not.
- CAN identifiers, timeouts and the byte encoding of addresses in commands; a command is a call on the node, and its several acknowledgements are one outcome.
- 32-bit wrap-around of the updater's failure counters and of base plus length; the address sum is required to fit.
- Bootloader.Updater.UpdateM0: the phases are claimed for bases whose header does not cross a page boundary, which includes every page-aligned base; exactness on success is claimed for all bases.
- Contents of the header (CRC and length) and the remote bootloader's decision; the image is a fixed byte sequence.
- CAN error counters, error bits other than overflow and late PDO, and `CO_CANmodule_process` (`common/CO_driver.c:318-393`).
- Identifier, length and data of transmitted frames; a frame is known by its buffer and by the number of the send that filled it, so a merged send is not given a payload.
- Filters of the second receive FIFO, apart from the banks they take.
- Serial bit order and bus sharing of the SI41XX, its start and stop, and the mutex; RF1, RF2 and IF are one method with the output as parameter.
- SPI transfers, register values for frequencies and modulation, RFDIV, preamble, postamble, interrupts masks and event waits of the AX5043; values of measurement chunks.
- SynthesizerDriver.Synth.Set: nothing is promised for a target of zero, which the driver's assertion excludes and on which the loop would not end.
- RadioModes.Radio.Session: the sequences in which a profile is to be restored that never existed are excluded, since the code would follow a null pointer.
- RadioModes.Radio.Transmit: preamble and postamble; TXRaw has the same mode changes around the loop of RadioRaw and is not repeated. A profile that writes the power mode register is not counted as the driver turning the transmitter on.
- RadioTransmit.Transmit: the driver's transfer function caps an exchange at 256 bytes, which 125-byte chunks never reach, so the cap is not modelled.
- RadioReceive.RxWorker.Work: waiting for a free frame buffer is not modelled; allocation always succeeds at last. Chunks that continue no packet are excluded, as the driver's assertion does.
- RadioModes.Radio.SetProfile: a profile that writes the start bit of a ranging register; SetFreq ranges both channels again afterwards, and the result of a ranging is arbitrary in the model.
- Continuous-wave mode, Start and Stop of the radio driver, and timing everywhere.
- Hardware CRC units (`common/crc.c:112-131`) and CRC-16, whose result depends on peripheral state.
- The file system below `file_read`: a file is a byte sequence that may be read in pieces or fail.
- Busy waits on SCL (`common/opd.c:220`, `common/opd.c:249`), clock stretching, and a transfer with nothing to send, for which the code uses an unset variable.
- OpdI2c.Expander.SenseSda: the target's level is arbitrary at every look; what a real target answers is not modelled.
- CanModules.CanModule.ClearPendingSyncPDOs: the late flag is set just after the lock is released; the model sets it in the same step.
- CanModules.CanModule.Send: the fates, the log and the excess are a ledger of the model; the firmware keeps only the counter and the flags.
- Sensor, battery, DAC and clock drivers, AX.25, node and worker managers, and board definitions.
