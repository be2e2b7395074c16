# RICEProbe: wire engine, command layer and bridges, verified

RICEProbe is a CMSIS-DAP debug probe. A host sends it byte packets; it turns them into JTAG or SWD waveforms, reads the
answers of a target that is pipelined and may ask it to wait, and sends bytes back. This project models that path, from
the bytes to the single clock edges, and the three buffers beside it (SWO capture, virtual com port, UTF-8 ids), in Dafny.
`dafny verify dfyconfig.toml` checks everything.

## How it is built

| layer | modules |
|---|---|
| independent references, knowing nothing of the firmware | `DebugPort` (register accesses, posted reads, WAIT and FAULT; chapters B2 and B3 of ARM IHI 0031), `TapChain` (a chain of TAPs clock by clock; section 6.1 of IEEE 1149.1-2001), `SwdTarget` (an SWD target clock by clock; section B4.2 of ARM IHI 0031) |
| bit-banged drivers, proved against those | `JtagWire`, `SwdWire` |
| transfer engine | `TransferSpec`, `BlockSpec` and `CommandSpec` (one function for each piece of the C code, branch for branch), `DapDriver` (the imperative code with IR cache, retries and ring buffers, proved to compute those functions on the real wires), `TransferProof`, `FramingProof`, `BlockFraming`, `OperandProof`, `WillingProof`, `ReportProof`, `AckProof` (what those functions mean) |
| raw bits | `SequenceCodec`, `JtagSequence`, `SwdSequence`, `SequenceFraming` |
| requests | `Dispatcher`, `DispatchProof`, `CommandProof` (the transfer commands under the dispatcher) |
| interleaved producers and consumers | `CircularBuffer`, `VcpBridge`, `SwoCapture` |
| codecs | `Utf8`, `Luhn` |
| shared | `Bits`, `RingBuffer`, `Status` |

The drivers, handlers, interrupts and callbacks are classes and methods with loops, as in the source; each is proved
equal to a function of the old state, and the theorems are about those functions. Bytes and words are numbers below
2^8 and 2^32; bit sequences are written least significant bit first, the order in which they travel.

The chain of results for one DAP_Transfer reads: `JtagPort.Transfer` and `SwdPort.Transfer` show that a waveform is one
register transaction; `Probe.PortTransfer` and `Probe.PortSetIr` add retries and the IR cache; `Probe.HandleTransfer`
shows the whole handler to be the function `CommandSpec.TransferCommand` over such transactions;
`FramingProof.TransferIsSequential` and `CommandProof.TransferCommandIsSequential` show that function to be the plain list
of requests, one at a time, on a target without a pipeline; `CommandProof.EffectsOfTransfer` says the same of the effect
the dispatcher's reference gives a command; and `CommandProof.StreamOfOrders` shows streams of commands to have those
effects, one after the other.

## Assumptions

- A target is any `World`: an acknowledge and a pattern of flipped bits for every transaction, a value for every history
  of register accesses. Theorems hold for all of them. Where a theorem needs `Detectable`, transmission errors of a read
  are such that parity shows them.
- Addressed TAPs have an instruction register of at least four bits (the shortest that holds DPACC and APACC), the
  others of at least one. Between commands the TAPs are in Run-Test/Idle; probe and SWD target agree on turnaround
  and data phase, as SWD_Configure is there to arrange.
- An SWD acknowledge that is none of OK, WAIT and FAULT is followed by one whole data phase of the target.
- Zephyr's `ring_buf` is a bounded FIFO over an array. A claim hands out one contiguous stretch, behind all that has been
  claimed since the last finish; finishing with n bytes puts (or takes) the first n and returns all other claims. Buffers
  are below 64 KB. A request buffer has not come round when a stream of packets starts, since it is reset after every
  response; words appended to it may come round.
- A put claim is filled and finished in one step, save the one that is handed to a USB read in `VcpBridge`, and
  `x |= bit << k` of bits not yet set is an addition.
- `usb_transfer` succeeds, and the completion of a transfer is reported together with its endpoint becoming free;
  resetting the com port cancels what is in flight.
- In `Dispatcher` the handlers of the commands are a parameter: functions of the state, the command id and both buffers,
  which may append to the request as DAP_Transfer does. `Dispatcher.Orderly` is all that is asked of them: a handler that
  leaves more in the request buffer than it found has replied. `CommandProof` instantiates it with
  DAP_TransferConfigure, DAP_Transfer and DAP_TransferBlock, `SequenceFraming` with JTAG_Sequence and SWD_Sequence.

## Where the code departs from its documentation

The code is modelled as it is. Each departure is stated exactly.

1. The words DAP_Transfer reads are put behind the request (firmware/src/dap/commands_transfer.c:339, 374, 421), not into
   the response, where firmware/tests/dap/src/test_transfer.c:32 and scripts/tests/test_dap.py expect them. A request list
   is answered as documented by every target if and only if no target lets it come to a normal read
   (`CommandProof.DocumentedIffNoRead`); a command that announces more requests than it carries takes the missing ones from
   what the target answered (`ReportProof.MissingRequestComesFromTarget`); and a word that finds no place there makes the
   command fail, exactly when `FramingProof.WordsFit` says so (`WillingProof.FailsIffNoPlace`). Streams are not disturbed by
   the words as long as there is room for them (`CommandProof.StreamOfOrders`).
2. Collecting a posted read overwrites the operand that has just been loaded (firmware/src/dap/commands_transfer.c:327,
   335). Every target is brought, after each request of a list, to the state that the list's own operands lead to, if and
   only if there is no request with an operand directly behind a posted read, with the exceptions spelled out in
   `OperandProof.Safe` (`OperandProof.OperandsOwnIffSafe`). In firmware/tests/dap/src/test_transfer.c:32 the word written
   and the word read before it are the same.
3. SWO_Data claims the whole maximum again in every turn (firmware/src/dap/commands_swo.c:182). Whatever the UART delivers
   during and between the turns, the maximum is kept if and only if it is at most one, the first turn gets all of it, the
   response has no space for more, or the bytes up to the maximum end where the array ends (`SwoCapture.MaxKeptIff`; seven
   bytes for four in `SwoCapture.SevenForFour`). It always returns less than twice the maximum (`SwoCapture.SwoPort.Data`).
4. SWD_Sequence without any sequence makes SWDIO an output on whatever port (firmware/src/dap/commands_swd.c:129-134;
   `SwdSequence.SequencePort.HandleSwdSequence`). With sequences, another port leaves the pin alone.
5. The count of an inner batch is a `uint8_t`, so 0 acts as 256 (firmware/src/dap/dap.c:137-209; `DispatchProof`).
6. DAP_TransferBlock computes the length of cancelled words in 16 bits (firmware/src/dap/commands_transfer.c:514). Complete
   commands are not affected, as the buffer is too small for so many words (`BlockSpec.WriteBlockIsExact`), but one that is
   short of its words is accepted instead of refused on a port that cannot take it if and only if what the length of all
   its words wraps to is there, and on a connected port by some target, one that refuses the first word, if and only if
   that holds of all words but the first (`CommandProof.ShortBlockAcceptedIff`, `BlockSpec.NoWordsAccepted`). And a
   block read of count 0 performs one read where reads are posted (`BlockSpec.EmptyReadStillPosts`).
7. `utf8_decode` accepts overlong forms, surrogates and values up to 0x1fffff (`Utf8.AcceptedThough`); which of the accepted
   ones section 3 of RFC 3629 admits shows in their first two bytes (`Utf8.AcceptedWellFormed`). And `utf8_rbuf_get` fails
   on a character that straddles the end of the array although all of it is there (`Utf8.PutThenGet`).
8. The com port finishes the claim of a read from the host only when bytes came (firmware/src/vcp/usb.c:210) and then
   claims again (firmware/src/vcp/usb.c:222), behind what is still claimed. Bytes reach the UART whole and in order, and
   every read is put right behind them, if and only if no read completes empty while it has room, as one does on a
   zero-length packet (`VcpBridge.KeptIffNoEmptyRead`). If the first read does, nothing ever comes from the host until the
   port is reset (`VcpBridge.FirstReadEmpty`); later on the UART can be given stale bytes (`VcpBridge.StaleByteSpoken`).
   The way to the host is not affected (`VcpBridge.AnyRun`).

## Model

| member | source | states |
|---|---|---|
| TapChain.FlatShift | firmware/src/dap/commands_jtag.c:46-90 | Seen from TDI and TDO, a chain of TAPs is one long shift register, whatever the lengths of its stages |
| TapChain.Ways | firmware/src/dap/commands_jtag.c:46-90 | The levels of TMS that lead into the shift states, from there to update and idle, and from anywhere to reset |
| JtagWire.ScanStep | firmware/src/dap/commands_jtag.c:46-90 | Every clock of a scan shows the next captured bit on TDO and takes one bit in, the path always holding the rest of the captured bits and then the sent ones |
| JtagWire.IrStageComplete | firmware/src/dap/commands_jtag.c:57-84 | After an IR scan the addressed TAP holds the low bits of the instruction and every other TAP all ones, that is BYPASS |
| JtagWire.SelectedAfterSetIr | firmware/src/dap/commands_transfer.c:275-282 | With four IR bits or more, each DPACC, APACC and IDCODE code selects its register and no other |
| JtagWire.JtagPort.SetIr | firmware/src/dap/commands_jtag.c:46-90 | From Run-Test/Idle to Run-Test/Idle in 6 clocks plus the chain's IR bits; afterwards the addressed TAP has the instruction, all others are in BYPASS, no debug port was touched |
| JtagWire.AckOfLoad | firmware/src/dap/commands_transfer.c:57-69 | The three bits after the bypass bits, with the low two exchanged, are the acknowledge the selected port captured |
| JtagWire.WordOfLoad | firmware/src/dap/commands_transfer.c:77-100 | The 32 bits after them are the result the port captured |
| JtagWire.StageComplete | firmware/src/dap/commands_transfer.c:62-125 | At Update-DR of an accepted transfer the addressed TAP's register holds exactly the header bits and the 32 data bits, in spite of the bypass bits on both sides |
| JtagWire.TransactUpdate | firmware/src/dap/commands_transfer.c:47-140 | What is latched then is the access (RnW, A2, A3, data) the caller asked for, performed once |
| JtagWire.TransactRefused | firmware/src/dap/commands_transfer.c:70-75 | After any acknowledge but OK nothing that is shifted has an effect |
| JtagWire.HeaderBits | firmware/src/dap/commands_transfer.c:56-69 | RnW, A2 and A3, bits 1 to 3 of the byte the host sends, go out in that order, to the register that bit 0 selects |
| JtagWire.JtagPort.Transfer | firmware/src/dap/commands_transfer.c:47-140 | The waveform is one register transaction of the selected port, with its acknowledge and result; other ports and all instructions stay; it ends in Run-Test/Idle after a closed-form number of clocks |
| JtagWire.IdcodeOfLoad | firmware/src/dap/commands_jtag.c:217-227 | The 32 bits past index bypass bits are the IDCODE of TAP index |
| JtagWire.JtagPort.Idcode | firmware/src/dap/commands_jtag.c:192-240 | JTAG_IDCODE returns the addressed device's code, leaves the chain in Run-Test/Idle after 43 + index clocks and the chain's IR bits |
| DapDriver.Probe.HandleIdcode | firmware/src/dap/commands_jtag.c:192-240 | All of JTAG_IDCODE: on a wrong port or index an error and no clock, otherwise the addressed device's code in the response, with no debug port touched |
| JtagWire.JtagPort.Configure | firmware/src/dap/commands_jtag.c:92-118 | The tables are filled so that before, length and after add up to the whole chain for every TAP; too many devices change nothing; a command cut short leaves the new count with the lengths that came |
| DapDriver.Probe.HandleJtagConfigure | firmware/src/dap/commands_jtag.c:92-124 | All of JTAG_Configure, with its error returns, the bytes taken and the response, also for too many devices |
| SwdWire.PacketWellFormed | firmware/src/dap/commands_transfer.c:144-158 | Start, parity, stop and park are right for every request byte, though parity is a sum of unmasked shifted words, and the target reads back the access that was meant |
| SwdWire.PacketInOrder | firmware/src/dap/commands_transfer.c:144-158 | The packet is start, bits 0 to 3 of the request byte, their parity, stop and park, in that order |
| SwdWire.WrittenIffEven | firmware/src/dap/commands_transfer.c:207-215 | The target takes a word exactly if the bit behind it makes the number of ones even |
| DebugPort.RequestDecoded | firmware/src/dap/commands_transfer.c:27-33 | Bits 0 to 3 of a request byte are APnDP, RnW, A2 and A3 of the access, whatever the other bits are |
| DebugPort.FrameEven | firmware/src/dap/commands_transfer.c:175-189 | Word and parity bit of a read together have an even number of ones |
| DebugPort.ReadNoise | firmware/src/dap/commands_transfer.c:175-189 | An accepted read is reported with acknowledge 8 exactly when an odd number of its 33 bits was flipped, and otherwise OK; with none flipped the word is the target's own; the access was made either way |
| DebugPort.SingleFlipReported | firmware/src/dap/commands_transfer.c:175-189 | Any one flipped bit of word or parity gives acknowledge 8 |
| SwdWire.SwdPort.SendPacket | firmware/src/dap/commands_transfer.c:142-158 | The eight clocks leave the target in the turnaround for exactly this request |
| SwdWire.SwdPort.ReadData | firmware/src/dap/commands_transfer.c:177-189 | The 32 bits sampled are the word the target sent and the parity test tells an odd number of errors |
| SwdWire.SwdPort.WriteData | firmware/src/dap/commands_transfer.c:207-215 | The target receives the whole word with even parity and performs the write |
| SwdWire.SwdPort.RefusedPhase | firmware/src/dap/commands_transfer.c:223-246 | After WAIT or FAULT the line is given back without contention, with a data phase or without |
| SwdWire.SwdPort.StrayPhase | firmware/src/dap/commands_transfer.c:247-257 | After a protocol error the line is held off for a whole data phase and then taken back |
| SwdWire.SwdPort.Transfer | firmware/src/dap/commands_transfer.c:142-259 | On every branch the waveform is one register transaction of the target, host and target never both drive SWDIO, and it ends with the host driving it high after a closed-form number of clocks |
| TransferSpec.RetryExactlyOnce | firmware/src/dap/commands_transfer.c:261-273 | Of at most wait_retries + 1 transactions all but the last drew WAIT and only the last has an effect and an answer; WAIT is returned only when all drew it |
| AckProof.ExecuteAnswered | firmware/src/dap/commands_transfer.c:343-396 | A request that is carried out leaves OK, from the target if there was a transaction; one that stops the command leaves what the target answered last, plus 16 exactly for a value that does not match |
| AckProof.ReportsLastAck | firmware/src/dap/commands_transfer.c:284-425 | What DAP_Transfer reports is what its last transaction was answered, plus 16 after a value that does not match; without a transaction 0 for no request and OK for writes of the mask |
| AckProof.FinishAnswered | firmware/src/dap/commands_transfer.c:415-425 | A write not confirmed or a word not collected makes one more transaction, whose acknowledge is reported |
| AckProof.LastWriteConfirmed | firmware/src/dap/commands_transfer.c:415-425 | So a write at the end is confirmed by a transaction after the loop, and a fault found out late is reported |
| AckProof.BlockReportsLastAck | firmware/src/dap/commands_transfer.c:467-509 | What DAP_TransferBlock reports is what its last transaction was answered; a block written makes at least one transaction more than words |
| DapDriver.Probe.PortTransfer | firmware/src/dap/commands_transfer.c:261-273 | The retry loop over real waveforms is that function, on either port and on none |
| DapDriver.Probe.PortSetIr | firmware/src/dap/commands_transfer.c:275-282 | Skipping redundant IR scans is invisible: afterwards the addressed TAP really has the desired instruction, whether or not a scan was made, and the target is as before |
| DapDriver.Probe.PollValue | firmware/src/dap/commands_transfer.c:355-362 | The match loop over real waveforms, with the IR scanned once before it and still right in every turn |
| DapDriver.Probe.CollectPending | firmware/src/dap/commands_transfer.c:331-340 | Collecting a posted read over real waveforms, its word going behind the request |
| DapDriver.Probe.RunRequests | firmware/src/dap/commands_transfer.c:319-425 | The command loop, the drain and the final RDBUFF read compute the function Run for every request buffer and every target, with the IR right before every scan |
| DapDriver.Probe.HandleTransfer | firmware/src/dap/commands_transfer.c:284-428 | All of DAP_Transfer, with its error returns and the response patched in place, and no other device of the chain touched |
| DapDriver.Probe.HandleTransferConfigure | firmware/src/dap/commands_transfer.c:37-45 | All of DAP_TransferConfigure: idle clocks and both retry counts stored one by one, with its error returns |
| DapDriver.Probe.HandleTransferBlock | firmware/src/dap/commands_transfer.c:430-520 | All of DAP_TransferBlock likewise |
| TransferProof.FetchEncoded | firmware/src/dap/commands_transfer.c:320-329 | Whatever the target does, the next request taken is the next one the host encoded, with its operand |
| TransferProof.RequestEncoded | firmware/src/dap/commands_transfer.c:24-33 | Bit 4 of the request byte makes a read a value match, bit 5 a write a write of the mask; writes and value matches are followed by their operand, all others by nothing |
| TransferProof.RequestMeans | firmware/src/dap/commands_transfer.c:342-396 | What the reference has each request byte do: the access and its word, the mask, or reads up to the first value that matches, at most the match retries and one |
| Bits.BitAt | firmware/src/dap/commands_transfer.c:90-125 | Bit i of a word, counted from the one that travels first, is the one of weight 2 to the i |
| Bits.AndBit | firmware/src/dap/commands_transfer.c:358-362 | The mask is applied bit by bit |
| Bits.LowByteFirst | firmware/src/util.h:47-66 | Words and counts have their low bytes first |
| TransferProof.WireOk | firmware/src/dap/commands_transfer.c:261-273 | A transaction that ends OK makes its access once and its value comes where the port puts it, posted or direct |
| TransferProof.CollectRuns | firmware/src/dap/commands_transfer.c:331-340 | Collecting a posted read yields its word and accesses no register; refused, that word is the only thing lost |
| TransferProof.PollPosted | firmware/src/dap/commands_transfer.c:346-366 | A match on a port that posts reads compares the register's own successive values, and reads it one time more than a direct one |
| TransferProof.PollDirect | firmware/src/dap/commands_transfer.c:346-366 | A match on a direct register stops at its first matching value |
| TransferProof.IterationRuns | firmware/src/dap/commands_transfer.c:319-398 | One turn of the loop is one request of the sequential reference |
| TransferProof.DrainEncoded | firmware/src/dap/commands_transfer.c:400-414 | The drain takes cancelled requests off exactly as the loop would have |
| TransferProof.RefusedDrains | firmware/src/dap/commands_transfer.c:310-317 | A command on a disabled port or a wrong index uses the same request bytes as one that runs |
| TransferProof.LoopRuns | firmware/src/dap/commands_transfer.c:319-398 | However the loop ends, the requests it completed are those of the reference, in order |
| FramingProof.TurnTwin | firmware/src/dap/commands_transfer.c:331-394 | A request does the same whatever lies in the request buffer, and fails exactly when a word it appends has no place |
| FramingProof.RunTwin | firmware/src/dap/commands_transfer.c:284-428 | So does the command: runs on different buffers end alike, but for words that find no place |
| FramingProof.TransferFraming | firmware/src/dap/commands_transfer.c:310-425 | On every port, for every target and any noise, the command's own bytes are used and what follows them stays, with at most one word for each normal read behind it; it fails only for want of a place for a word |
| FramingProof.RoomFits | firmware/src/dap/commands_transfer.c:339 | A buffer that does not come round has a place for every word |
| FramingProof.TransferIsSequential | firmware/src/dap/commands_transfer.c:284-428 | Main theorem: for every request list and target, DAP_Transfer carries out the completed requests once each and in order and returns their read words in order, all of them under OK and all but at most the last otherwise; what follows in the buffer is untouched; a request cut short has at most repeated its own access; or a word had no place |
| WillingProof.LoopGoes | firmware/src/dap/commands_transfer.c:319-394 | Nothing but a failing match or a word without a place ends the loop early on a target that always answers OK |
| WillingProof.FailsIffNoPlace | firmware/src/dap/commands_transfer.c:339-421 | If target and list let everything be carried out, the command fails if and only if the check on list and buffer made beforehand fails |
| WillingProof.FullBufferTakesOneWord | firmware/src/dap/dap.c:247 | After four queued packets of 512 bytes the first word still finds a place, the second does not |
| CommandProof.TransferCommandIsSequential | firmware/src/dap/commands_transfer.c:284-428 | The whole command in those terms: header, report, words, and no other device touched |
| CommandProof.DeviceChosen | firmware/src/dap/commands_transfer.c:296-308 | On JTAG the index names the device, on SWD there is one; else there is none |
| CommandProof.TransferRefusedByPort | firmware/src/dap/commands_transfer.c:294-317 | Without such a device, or disconnected, all requests are off the buffer, the reply is 05 00 00 and nothing is done |
| CommandProof.TransferReportsLastAck | firmware/src/dap/commands_transfer.c:284-428 | On a connected port the third byte of the reply is what the device answered last, as in AckProof |
| OperandProof.OwnOperandsSuffice | firmware/src/dap/commands_transfer.c:325-335 | When operands are not overwritten, the run is the one the host asked for |
| OperandProof.SafeSuffices | firmware/src/dap/commands_transfer.c:325-335 | A list that passes the check keeps its operands on every target |
| OperandProof.OtherwiseElsewhere | firmware/src/dap/commands_transfer.c:325-398 | On a target that gives the right answer a request with another word for its operand leads to other accesses, another mask, or to success instead of failure or failure instead of success |
| OperandProof.UnsafeReached | firmware/src/dap/commands_transfer.c:325-335 | A list that fails the check is brought, by a target that can be named, to another state than its own operands lead to |
| OperandProof.OperandsOwnIffSafe | firmware/src/dap/commands_transfer.c:325-335 | Exactly the lists that pass the check lead every target, after each request, to the accesses, mask and words their own operands lead to |
| ReportProof.OneWordPerRead | firmware/src/dap/commands_transfer.c:367-379 | One word for each completed normal read, none for anything else |
| ReportProof.OkPutsEveryWord | firmware/src/dap/commands_transfer.c:368-425 | Under OK there is exactly one word for each normal read, behind the request |
| ReportProof.WordlessIffNoRead | firmware/src/dap/commands_transfer.c:368-425 | Whatever is acknowledged, a list puts out no word on any target if and only if no target lets it come to a normal read |
| CommandProof.DocumentedIffNoRead | firmware/src/dap/commands_transfer.c:284-428 | So every target lets the whole command succeed with its words in the response, as documented, if and only if none lets it come to a normal read |
| ReportProof.MissingRequestComesFromTarget | firmware/src/dap/commands_transfer.c:319-341 | A request the host never sent is made from the word the target answered |
| ReportProof.TransferCost | firmware/src/dap/commands_transfer.c:284-428 | A bound on the wire transactions of one command from its count, the match retries and the wait retries, for every target |
| BlockSpec.ReadTurnRuns | firmware/src/dap/commands_transfer.c:474-490 | One turn of a block read over the pipeline |
| BlockSpec.ReadBlockIsExact | firmware/src/dap/commands_transfer.c:467-490 | Under OK the register was read exactly count times and the words are those values in order; otherwise exactly the reported number of first words is there; the posted first read and the last RDBUFF read lose, repeat and shift nothing |
| BlockSpec.EmptyReadStillPosts | firmware/src/dap/commands_transfer.c:467-473 | A block read of count 0 still reads the register once where reads are posted, and reports nothing |
| BlockSpec.ReadBlockOfBuffer | firmware/src/dap/commands_transfer.c:467-490 | A block that reads RDBUFF itself accesses no register and returns the same word each time |
| BlockSpec.CancelInStep | firmware/src/dap/commands_transfer.c:511-517 | Cancelled words are taken off exactly, if they are fewer than 0x4000, as many as 64 KB hold |
| BlockSpec.ShortAcceptedIff | firmware/src/dap/commands_transfer.c:511-517 | Cancelled words that are not all there are accepted if and only if they are 0x4000 or more and what the 16-bit length wraps to is there |
| CommandProof.ShortBlockAcceptedIff | firmware/src/dap/commands_transfer.c:430-520 | The whole command short of its words, on every port: when it is accepted where it should be refused, and when some target can make it so |
| BlockSpec.NoWordsAccepted | firmware/src/dap/commands_transfer.c:511-517 | Such a command: 0x4000 words announced, none there |
| BlockSpec.WriteBlockIsExact | firmware/src/dap/commands_transfer.c:491-517 | Exactly the reported number of first words was written, in order and once each, for every count; all words are off the buffer, written or cancelled |
| CommandProof.BlockCommandIsExact | firmware/src/dap/commands_transfer.c:430-520 | All of DAP_TransferBlock on a connected port: device, count and code are those of the header; the reply holds the number of words done, the acknowledge of the last transaction, and the words of that many reads in order; or that many words were written; under OK all of them; no other device is touched |
| CommandProof.BlockRefusedByPort | firmware/src/dap/commands_transfer.c:439-464 | Without such a device, or disconnected, the words are off the buffer, the reply is 06 00 00 00 and nothing is done |
| BlockFraming.WriteFraming | firmware/src/dap/commands_transfer.c:491-517 | For every target and any noise a complete write block uses exactly its own words |
| BlockFraming.ReadFraming | firmware/src/dap/commands_transfer.c:467-490 | A read block leaves the request alone and fails exactly when its words do not fit the response |
| SequenceCodec.PackUnpack | firmware/src/dap/commands_jtag.c:165-185 | Packing inverts unpacking |
| SequenceCodec.UnpackPack | firmware/src/dap/commands_jtag.c:165-185 | Unpacking captured bytes gives the sampled bits, zero-padded to a whole byte |
| SequenceCodec.SplitEncoded | firmware/src/dap/commands_jtag.c:143-150 | Sequences as a host encodes them, of 1 to 64 cycles each, are taken apart again, whatever follows |
| SequenceCodec.AheadStep | firmware/src/dap/commands_jtag.c:143-186 | One sequence of the loop brings what is left of the command and what has been returned together to the same whole |
| SequenceCodec.UnpackBit | firmware/src/dap/commands_jtag.c:165-185 | Bit k of the bytes is bit k % 8 of byte k / 8 |
| SequenceCodec.RawParsed | firmware/src/dap/commands_jtag.c:143-163 | A command as the host writes it, cycles in bits 0 to 5 of the first byte, TMS in bit 6, capture in bit 7, is taken apart into just those sequences |
| JtagSequence.ClockedSplit | firmware/src/dap/commands_jtag.c:165-185 | Clocking two stretches of bits one after the other is clocking them joined |
| JtagSequence.NextByte | firmware/src/dap/commands_jtag.c:165-185 | The next byte sends the next eight bits, or those left, and the captured bytes stay the packing of all sampled bits |
| JtagSequence.PassedOver | firmware/src/dap/commands_jtag.c:152-160 | On another port nothing moves on the wires and nothing is captured |
| JtagSequence.CapturedBytes | firmware/src/dap/commands_jtag.c:182-184 | The returned bytes are as many as the capturing sequences sent |
| JtagSequence.SequencePort.HandleJtagSequence | firmware/src/dap/commands_jtag.c:126-190 | It succeeds exactly when the command is complete and the reply fits, takes the same bytes on every port, drives exactly the encoded bits at the encoded TMS levels and returns exactly the sampled ones |
| JtagSequence.CommandOnWires | firmware/src/dap/commands_jtag.c:126-190 | Clock by clock, from the bytes of the command: TMS is at the level of its sequence, TDI the next bit of its data, and the reply holds what TDO showed before each clock of the sequences that capture, zero-padded |
| JtagSequence.HighBurstResets | firmware/src/dap/commands_jtag.c:162-163 | A last sequence of five cycles or more with its TMS bit set resets the TAPs from any state |
| JtagSequence.FiveOnesReset | firmware/src/dap/commands_general.c:359-377 | A TMS sequence that ends in five ones resets the TAPs from any state |
| JtagSequence.TmsOnWires | firmware/src/dap/commands_general.c:359-377 | Clock by clock TMS is the next bit of the bytes of SWJ_Sequence |
| JtagSequence.SequencePort.HandleSwjSequence | firmware/src/dap/commands_general.c:359-382 | TMS follows the unpacked bits, 256 of them for a count of 0, and exactly their bytes are used |
| SwdSequence.SampledSplit | firmware/src/dap/commands_swd.c:91-110 | Sampling two stretches one after the other is sampling them joined |
| SwdSequence.ReturnedBytes | firmware/src/dap/commands_swd.c:69-110 | The length of the reply is the same on every port |
| SwdSequence.PassedOver | firmware/src/dap/commands_swd.c:69-84 | On another port the target sees no clock |
| SwdSequence.SequencePort.HandleSwdSequence | firmware/src/dap/commands_swd.c:50-138 | As for JTAG, with the direction of SWDIO; the pin is an output afterwards on the SWD port, and on any port when there was no sequence |
| SwdSequence.CommandOnWires | firmware/src/dap/commands_swd.c:50-138 | Clock by clock, from the bytes of the command: the line has the next bit of a sequence that is sent; in one that captures it is left to the target, and the reply holds its level before each clock, zero-padded |
| SequenceFraming.SequenceProper | firmware/src/dap/commands_jtag.c:143-160 | Both commands use exactly their own bytes, whatever port, target and following bytes |
| SequenceFraming.BatchOfSequences | firmware/src/dap/dap.c:137-209 | A batch of them is carried out as the list of its commands, on any port, with not a byte left over or taken from what follows |
| DispatchProof.CommandsRun | firmware/src/dap/dap.c:137-209 | The commands of a batch run in order, each from where the one before ended |
| DispatchProof.ResetTurn | firmware/src/dap/dap.c:137-209 | After a queued batch the loop is as at its start |
| DispatchProof.PacketBytes | firmware/src/dap/dap.c:137-209 | The bytes of a packet: 7e or 7f, the count modulo 256, then id and payload of each command; a batch of either kind is answered with 7f and the count |
| DispatchProof.StreamRuns | firmware/src/dap/dap.c:137-209 | Any stream of queued batches and the packet that releases them, with room for what its commands append: exactly its bytes are used, the state is that of the flat command list, the response that of the batch heads and replies in order, and behind the rest of the request lies all that was appended; it fails exactly when a command is refused or the response does not fit |
| DispatchProof.ServeRuns | firmware/src/dap/dap.c:234-271 | Packet by packet nothing is sent for a queued batch and one response for the releasing packet, after which all buffers are empty |
| CommandProof.TransferDoes | firmware/src/dap/commands_transfer.c:284-428 | A DAP_Transfer under the dispatcher, in any state and with room for its words: its own bytes off, its words behind, three bytes in reply |
| CommandProof.BlockDoes | firmware/src/dap/commands_transfer.c:430-520 | A complete DAP_TransferBlock likewise; it fails exactly when its reply does not fit |
| CommandProof.ConfigureAnswered | firmware/src/dap/commands_transfer.c:37-45 | Its two counts of retries are those of all later transfers, low byte first, and the reply is 04 00 |
| CommandProof.ConfigureDoes | firmware/src/dap/commands_transfer.c:37-45 | A DAP_TransferConfigure likewise, with the retries of all later transfers as sent |
| CommandProof.EffectsOfTransfer | firmware/src/dap/commands_transfer.c:284-428 | What the dispatcher's reference has a DAP_Transfer come to is its first n requests carried out one at a time, their words appended, n and the acknowledge replied, and no other device touched |
| CommandProof.EffectsOfBlock | firmware/src/dap/commands_transfer.c:430-520 | What it has a DAP_TransferBlock come to is that of BlockCommandIsExact |
| CommandProof.OrderProper | firmware/src/dap/dap.c:137-209 | All three meet what the dispatcher asks of a command, on every port and for every target |
| CommandProof.StreamOfOrders | firmware/src/dap/dap.c:137-209 | Any stream of transfers, block transfers and new retry counts, on every port, is carried out as the list of its commands, undisturbed by the words they leave in the request buffer |
| Dispatcher.DapThread.HandleRequest | firmware/src/dap/dap.c:137-209 | The do-while loop with its two counters, for any bytes at all, with handlers that may append to the request: every turn puts something into the response or takes something off the request |
| Dispatcher.DapThread.ReceivePacket | firmware/src/dap/dap.c:234-271 | Store a queued packet, received into one claim of at most 512 bytes, or answer all that is stored, with 0xff alone after any failure |
| CircularBuffer.Circ.FillItems | firmware/src/vcp/vcp.c:73-97 | Filling a claimed stretch appends to the FIFO, wherever in the array it lies |
| CircularBuffer.Circ.PeekItems | firmware/src/vcp/usb.c:181-196 | A claimed stretch is the front of the FIFO |
| CircularBuffer.Circ.DropItems | firmware/src/vcp/usb.c:149-154 | Finishing it removes just that |
| CircularBuffer.Circ.Longest | firmware/src/vcp/vcp.c:73-74 | A put claim gets all that is free in one piece, a get claim all that is there in one piece |
| VcpBridge.AnyRun | firmware/src/vcp/vcp.c:65-118 | In every order of interrupts, work, callbacks, configuration and reset: bytes to the host and then those buffered are the bytes received, in order; no transfer is a multiple of the packet size; as many bytes go to the UART as came for it; a read from the host is put right behind all other claims and never on buffered bytes; buffered bytes always have a transfer in flight, work submitted or an interrupt enabled, or one of these about to be |
| VcpBridge.HearTakes | firmware/src/vcp/vcp.c:71-96 | Of what the UART has, exactly as much from the front is kept as is free in one piece, and work is submitted |
| VcpBridge.HostGetsKept | firmware/src/vcp/vcp.c:71-96 | In every run without a reset the bytes for the host, delivered and buffered, grow by just these, in order |
| VcpBridge.SpeakGives | firmware/src/vcp/vcp.c:98-116 | The UART takes exactly as many of the oldest bytes as it accepts of those in one piece, and its interrupt is disabled when there are none |
| VcpBridge.ReadBrings | firmware/src/vcp/usb.c:204-219 | All the bytes of a read come from the host and go behind those that are buffered |
| VcpBridge.UartGetsAll | firmware/src/vcp/usb.c:204-231 | In every run without a reset and an empty read with room the bytes for the UART, sent and buffered, grow by just those of the reads |
| VcpBridge.StartsEmpty | firmware/src/vcp/vcp.c:19-63 | Reset and configuration leave nothing buffered, claimed, in flight or submitted |
| VcpBridge.NextSound | firmware/src/vcp/usb.c:204-231 | Any step but a read that completes empty with room keeps the bytes towards the UART whole and in order, and starts reads right behind them, with the largest free stretch |
| VcpBridge.MisplacedNext | firmware/src/vcp/usb.c:210-222 | After such a read the next one is bound to be misplaced or too short, whatever happens before it |
| VcpBridge.KeptIffNoEmptyRead | firmware/src/vcp/usb.c:204-231 | For every run since the port was configured: the account towards the UART holds and reads are well placed all along, if and only if no read completed empty while it had room |
| VcpBridge.FirstReadEmpty | firmware/src/vcp/usb.c:210-222 | If the first read completes empty, no byte comes from the host in any continuation without a reset |
| VcpBridge.StaleByteSpoken | firmware/src/vcp/usb.c:210-222 | A run in which the UART sends a byte that lay in the buffer before instead of the one that came |
| VcpBridge.FlightUntouched | firmware/src/vcp/usb.c:181-198 | The bytes of a transfer in flight are overwritten by no step |
| VcpBridge.WriteDoneDelivers | firmware/src/vcp/usb.c:144-156 | A completed transfer delivers the oldest bytes and takes just them off |
| VcpBridge.NotMultiple | firmware/src/vcp/usb.c:190-192 | One byte less than a multiple of the packet size is none, for packets of two bytes or more |
| VcpBridge.IsrIsRun | firmware/src/vcp/vcp.c:65-118 | An interrupt is the run of the receiving and sending steps of its rounds, all of them or up to the first that finds the receive ring full |
| VcpBridge.VcpDevice.UartIsr | firmware/src/vcp/vcp.c:65-118 | The interrupt loop, with its early end when the receive ring is full |
| VcpBridge.VcpDevice.WorkHandler | firmware/src/vcp/usb.c:169-202 | Starts a transfer of the oldest bytes exactly when none is in flight and there are bytes: all that lie in one piece, or one less if that is a multiple of the packet size |
| VcpBridge.VcpDevice.WriteCallback | firmware/src/vcp/usb.c:144-156 | First half of the completion callback |
| VcpBridge.VcpDevice.CheckForMore | firmware/src/vcp/usb.c:158-166 | Its second half: work is submitted again if bytes have come in between |
| VcpBridge.VcpDevice.ReadCallback | firmware/src/vcp/usb.c:204-215 | Received bytes lie where they were claimed and finish all claims from the end of the ring on; none finish nothing |
| VcpBridge.VcpDevice.EnableAndRead | firmware/src/vcp/usb.c:214-231 | The transmit interrupt is enabled and the next transfer claims the largest stretch behind all that is claimed |
| VcpBridge.VcpDevice.ConfigureDevice | firmware/src/vcp/vcp.c:19-35 | Configuring starts with empty rings and one read, once |
| VcpBridge.VcpDevice.ResetDevice | firmware/src/vcp/vcp.c:37-63 | Reset empties both directions |
| SwoCapture.AnyRun | firmware/src/dap/dap.c:44-74 | Interrupts, copying and control in any order keep the account of captured bytes; until the next enable what was returned only grows and an overrun stays noted |
| SwoCapture.HearTakes | firmware/src/dap/dap.c:50-71 | Of what the UART has, exactly as much from the front is kept as is free in one piece; if nothing is free, all is lost and the overrun noted |
| SwoCapture.HeardAll | firmware/src/dap/dap.c:50-71 | The account of bytes heard grows by just these until the next enable |
| SwoCapture.InterruptEnds | firmware/src/dap/dap.c:50-71 | An interrupt has all its rounds or ends with the first that finds the ring full |
| SwoCapture.ControlSets | firmware/src/dap/commands_swo.c:16-29 | What enabling and disabling change, and that they change nothing else |
| SwoCapture.NothingLost | firmware/src/dap/dap.c:44-74 | Since the last enable, bytes returned and then buffered are all bytes heard while no overrun is noted, and an ordered subsequence of them otherwise |
| SwoCapture.HearKeeps | firmware/src/dap/dap.c:54-73 | One turn of the interrupt keeps that account |
| SwoCapture.TakeKeeps | firmware/src/dap/commands_swo.c:180-190 | One turn of copying returns the oldest bytes and keeps it |
| SwoCapture.HeardBehind | firmware/src/dap/dap.c:54-73 | What arrives while bytes are claimed leaves them where and what they are |
| SwoCapture.MaxKeptIff | firmware/src/dap/commands_swo.c:180-194 | Exactly when no arrivals during or between the turns can make more than the maximum come back |
| SwoCapture.SevenForFour | firmware/src/dap/commands_swo.c:180-194 | Three bytes buffered, four asked for, four arriving in time: seven come back |
| SwoCapture.QuietCountExact | firmware/src/dap/commands_swo.c:180-194 | Without any arrival: exactly when, and by how much, more than the maximum comes back |
| SwoCapture.SwoPort.UartIsr | firmware/src/dap/dap.c:44-74 | The interrupt loop, ending when the ring is full |
| SwoCapture.SwoPort.CaptureControl | firmware/src/dap/commands_swo.c:16-29 | Enabling starts a new account with overrun cleared |
| SwoCapture.SwoPort.SetMode | firmware/src/dap/commands_swo.c:51-77 | The mode changes only for SWD and never to Manchester, stopping a capture that runs |
| SwoCapture.SwoPort.Control | firmware/src/dap/commands_swo.c:106-122 | Capture starts only for SWD in UART mode |
| SwoCapture.SwoPort.Data | firmware/src/dap/commands_swo.c:160-198 | With interrupts during and between its turns: capture, error and overrun are bits 0, 6 and 7 of the status; the count is that of the bytes that follow, they are the oldest in order, and fewer than twice the maximum |
| Utf8.RoundTrip | firmware/src/utf8.c:4-70 | Decoding finds every encoded value again, whatever follows, and uses exactly its bytes |
| Utf8.Forms | firmware/src/utf8.c:34-70 | The bytes of the four forms and the value they stand for, as in section 3 of RFC 3629 |
| Utf8.Refusals | firmware/src/utf8.c:34-70 | Which bytes are refused, with which error, and that all others are accepted |
| Utf8.StreamRoundTrip | firmware/src/utf8.c:4-70 | Streams of values decode to themselves and to nothing more |
| Utf8.ReEncode | firmware/src/utf8.c:34-70 | Re-encoding restores the bytes exactly when they were the shortest form |
| Utf8.AcceptedWellFormed | firmware/src/utf8.c:34-70 | Which accepted byte strings are well formed: in range, no surrogate and shortest, or what the first two bytes say |
| Utf8.WellFormedAccepted | firmware/src/utf8.c:34-70 | Every well-formed encoding is accepted |
| Utf8.AcceptedThough | firmware/src/utf8.c:34-70 | An overlong form, a surrogate and a value out of range that are accepted |
| Utf8.Encode | firmware/src/utf8.c:4-32 | The bytes written, the errors, and that an error writes nothing |
| Utf8.Decode | firmware/src/utf8.c:34-70 | The value and length, or which failure |
| Utf8.PutThenGet | firmware/src/utf8.c:72-98 | A put value is got again, whatever follows it, exactly if it does not straddle the end of the array |
| Utf8.Stream.Put | firmware/src/utf8.c:72-84 | A failed put leaves the buffer as it was |
| Utf8.Stream.Get | firmware/src/utf8.c:86-98 | A failed get leaves it as it was |
| Luhn.CheckGen | scripts/mfg/gen_manufacturing_data_hex.py:18-40 | The loop computes the check character of every string over the alphabet and fails on every other |
| Luhn.AlphabetOrder | scripts/mfg/gen_manufacturing_data_hex.py:23-28 | The alphabet is 0 to 9 and A to Z in this order |
| Luhn.Weights | scripts/mfg/gen_manufacturing_data_hex.py:30-38 | Every other code from the right counts twice, the last one first, its base-36 digits added; check code and sum make a multiple of 36 |
| Luhn.CheckCloses | scripts/mfg/gen_manufacturing_data_hex.py:18-40 | With its check character the weighted sum is 0 mod 36 |
| Luhn.SubstitutionDetected | scripts/mfg/gen_manufacturing_data_hex.py:18-40 | Every change of a single character changes it |
| Luhn.TranspositionDetected | scripts/mfg/gen_manufacturing_data_hex.py:18-40 | So does every exchange of neighbours except of 0 and Z |
| Luhn.PaddingInvisible | docs/non_volatile_data.md:19 | Inserting a pair of zeros anywhere leaves it the same |
| Luhn.WrongCharacterShows | scripts/mfg/gen_manufacturing_data_hex.py:18-40 | On strings: a single wrong character changes the check character |
| Luhn.SwapShows | scripts/mfg/gen_manufacturing_data_hex.py:18-40 | On strings: so do two unequal neighbours that change places, except 0 and Z |
| Luhn.ZerosDoNotShow | scripts/mfg/gen_manufacturing_data_hex.py:18-40 | On strings: two zeros more or less do not |

## Left out

- FramingProof.TransferIsSequential: words read with an undetected even number of flipped bits are excluded; DebugPort.ReadNoise says what is reported for them, and TransferFraming holds for them too.
- DispatchProof.StreamRuns: asks for room for all that the commands of the stream may append; when a transfer lacks it is the subject of WillingProof.FailsIffNoPlace.
- CommandProof.StreamOfOrders: the commands of a stream are those that act on debug ports through their registers; raw sequences and scans, which act on the pins, have models of their own.
- CommandProof.TransferCommandIsSequential: undetected even numbers of flipped bits are excluded as in FramingProof.TransferIsSequential, which also says what the access of a request cut short may have been.
- BlockSpec.ReadBlockIsExact: excludes undetected even numbers of flipped bits, and responses without space for all the words, on which see BlockFraming.ReadFraming.
- OperandProof.OperandsOwnIffSafe: compares the states after every request, so a list whose overwritten mask is replaced before it is used fails the check although its last state is right.
- JtagWire.JtagPort.Idcode: the addressed TAP has four instruction bits or more, as everywhere in the model.
- DapDriver.Probe.HandleIdcode: the same.
- JtagSequence.SequencePort.HandleSwjSequence: says what the TAPs see, not what an SWD target on the same pin does.
- Dispatcher.DapThread.ReceivePacket: the transport delivers; the reset of the probe after one that fails is not modelled.
- SwdSequence.SequencePort.HandleSwdSequence: does not say whether host and target drive SWDIO at once; that is up to the bits the host chooses.
- SequenceFraming.SequenceProper: is about complete commands; the effects of one that is cut short are in the contracts of the handlers only as an error.
- WriteAbort: on SWD it is a single transfer as proved; on JTAG what an ABORT scan captures is not fixed by chapter B3 of ARM IHI 0031, and the driver decides from it whether to shift the word.
- DAP_Connect, DAP_Disconnect, SWJ_Pins, reset, host status, info and delay commands: pin and table access with one branch each.
- SWD_Configure, SWJ_Clock: they only store the parameters the model is quantified over.
- SWO transport, baud rate and status commands: they store or report fields.
- DAP_TransferAbort: not implemented by the firmware.
- The dispatcher of firmware/src/io/io.c: the grammar of dap.c with ids of more than one byte.
- Real time: clock rate, idle waits and timers; only clock edges and their order are modelled.
- Sharing of the TMS/SWDIO and TCK/SWCLK pins between the two ports: each port has its own pins here.
- Transports, USB descriptors, non-volatile storage, the Intel HEX output of the manufacturing script: input and output.
