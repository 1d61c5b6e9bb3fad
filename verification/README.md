# Vending machine money protocols

A model of the money side of a vending machine controller, with proofs that it does what the
programs promise. Each piece is stated twice: as the program does it, in place, on arrays,
buffers and maps, and as a specification on values; every method's contract ties the first to
the second, and the theorems are about the second.

* **The I2C/MDB gateway** (firmware in C, client in Go). `Gateway.dfy` is the gateway as a state
  machine: one atomic step for each interrupt, each `mdb_step`, each `twi_step` with its
  commands. `Buffers.dfy`, `FirmwareMdb.dfy`, `FirmwareTwi.dfy` and `FirmwareMain.dfy` are the
  firmware's buffers and globals as classes whose methods take exactly those steps.
  `GatewayInvariant.dfy` holds what every interleaving keeps, `GatewayHonesty.dfy` what no run
  can report, `GatewayReceive.dfy`, `GatewayTransmit.dfy`, `GatewayStreaming.dfy` and
  `GatewayDispatch.dfy` one concern each, `GatewayAnswers.dfy` what each command does,
  `GatewayErrors.dfy` what goes wrong on the MDB side and `GatewayBus.dfy` on the I2C side,
  `GatewayRetry.dfy`, `GatewayLeftovers.dfy`,
  `GatewayBusReset.dfy`, `GatewayTransmitter.dfy`, `GatewayReach.dfy` and `GatewayLongReply.dfy`
  what the code does beside its purpose. `GatewayDelivery.dfy` follows the reply queue to the
  client's parser over arbitrary runs, `EndToEnd.dfy` goes the whole way from the client's frame
  to its parser, and `EndToEndReset.dfy` does so for a bus reset. `MegaClient.dfy` is the client,
  `Protocol.dfy` the packet format, `Crc.dfy`, `CrcPolynomial.dfy` and `CrcTable.dfy` the CRC.
  `heard`, `sending`, `wire` and the packet ledger are history; no step reads them.
* **Change-making** (Go). `Currency.dfy` says what a strategy spends; `CurrencyPass.dfy` shows the
  coin-at-a-time loop to be one greedy pass; `CurrencyAgreement.dfy` settles when dry run and
  commit agree although the sort may order ties differently each time, `CurrencySort.dfy` and
  `CurrencyTies.dfy` for which single groups they do; `CurrencyTaken.dfy` says which coins each
  strategy prefers, one by one; `CurrencyGreedy.dfy` shows that greedy
  payments are optimal where nominals divide one another, and `CurrencyComplete.dfy` settles
  exactly which systems the greedy answer is right for. `NominalGroup.dfy` is the group and the
  strategies as objects.
* **MDB block decoding** (Go and Rust). `Stuffing.dfy` is the PARMRK stuffing of section 11.2.2 of
  POSIX.1-2017 Base Definitions, `MdbPacket.dfy` its encoder, `FileUart.dfy` its two decoders and
  the receiving half of a transaction. `GpioMdb.dfy` is the Rust transaction over 9-bit words,
  compared with the gateway's receive interrupt.
* **The coin poll** (Go). `CoinPoll.dfy` parses a changer's reply (section 5.3 of MDB/ICP 4.2)
  and follows it into the credit.

What the code does differently from what it seems meant to do is proved as it is:

* a retry asked for with RET never recovers the block, and the host gets an empty success
  (`GatewayRetry.RetryDoesNotRecover`, `GatewayReceive.BlockIsReported`);
* an error while sending leaves the transmit interrupt on, and error packets repeat
  (`GatewayLeftovers.ErrorRepeats`); the exact condition is `GatewayLeftovers.QuietIff`;
* a bus reset is not ended by its timer, but by a word from the bus or a transmit interrupt left
  on by an earlier error (`GatewayBusReset.StaysInResetIff`, `GatewayBusReset.LeftoverEndsReset`);
* a bus reset that ends before its timer leaves the transmitter off, and nothing but another bus
  reset can switch it on (`EndToEndReset.ResetCanSilence`, `GatewayTransmitter.ComesBackIff`);
* a read that the host ends with a NACK is the last one: the slave then no longer acknowledges its
  address (`GatewayReach.ReadLosesReachIff`). The client's own read does so for replies of 79
  and 80 bytes (`GatewayReach.ClientReadIsLastIff`, `GatewayLongReply.LongReplyIsLast`);
* `Contains` refuses payable amounts of some systems (`CurrencyComplete.CompleteIffTame`), and a
  commit may fail after a successful dry run (`CurrencyAgreement.AgreesIffNeverTies`);
* the Rust transaction sends ninth-bit flags left over from earlier reads
  (`GpioMdb.RequestIsRightIff`, `GpioMdb.NextRequestIsRightIff`).

`dafny verify dfyconfig.toml` checks the project.

## Model

| member | source | states |
|---|---|---|
| EndToEnd.ExchangeIsDelivered | hardware/i2c-mdb-atmega-gate/i2c-mdb_atmega-gate/mdb.c:68-232 | From any ready gateway, its transmitter on: for every request of 1 to 35 bytes, every answer of up to 36 data bytes, every closing byte and main-loop polls anywhere in between, request and sum go out on the MDB bus, the host parses first the acknowledgement, then exactly the report of that answer, and the gateway is ready again |
| EndToEndReset.ResetIsEnded | hardware/i2c-mdb-atmega-gate/i2c-mdb_atmega-gate/main.c:143-158 | From any gateway at rest, a bus reset that a word ends, after its timer or before it: the host gets the acknowledgement and the word's report, the gateway is at rest again, and its transmitter is on if and only if the timer came first |
| EndToEndReset.ResetCanSilence | hardware/i2c-mdb-atmega-gate/i2c-mdb_atmega-gate/main.c:148-158 | From every ready gateway a word that comes before the timer leaves it at rest with its transmitter off; no run without a further bus reset turns it on or puts a word on the MDB bus |
| GatewayTransmitter.TransmitterStays | hardware/i2c-mdb-atmega-gate/i2c-mdb_atmega-gate/mdb.c:57-232 | At no point of a run that stays out of bus resets is the transmitter switched; while it is off the run puts nothing on the MDB bus |
| GatewayTransmitter.ComesBackIff | hardware/i2c-mdb-atmega-gate/i2c-mdb_atmega-gate/main.c:214-229 | From a bus reset to before the next one, in any run: the transmitter is on again if and only if the timer came before the first word and before any enabled transmit interrupt |
| GatewayDelivery.ReadIsParsed | hardware/mega-client/protocol.go:103-133 | In every state with the invariant, known headers and no overflow, which every run from power-up keeps until an overflow: the client's read parses without error to exactly the packets of the reply buffer's history, and they are consumed when the reply has at most 78 bytes |
| GatewayDelivery.OverflowIsRead | hardware/i2c-mdb-atmega-gate/i2c-mdb_atmega-gate/twi.c:84-122 | After a packet that did not fit, the client's read is parsed as exactly Buffer_Overflow with that packet's size; the second buffer is untouched |
| GatewayDelivery.OverflowInRead | hardware/i2c-mdb-atmega-gate/i2c-mdb_atmega-gate/twi.c:84-89 | An overflow in the middle of a read: the read goes on in the report of the overflow where it was in the reply |
| GatewayDelivery.QueueIsDelivered | hardware/i2c-mdb-atmega-gate/i2c-mdb_atmega-gate/twi.c:46-122 | Over any runs with a client read after each: while no buffer has overflowed, what the host has been shown is exactly the packets consumed since, each once and in order; only a last possible read may leave its packets in the buffer |
| GatewayDelivery.HostGetsAll | hardware/i2c-mdb-atmega-gate/i2c-mdb_atmega-gate/main.c:50-84 | From power-up, under the same condition: what the host has been shown, followed by what the two buffers hold, is everything that was ever accepted for it |
| EndToEnd.GoodBlockIsDelivered | hardware/mega-client/mega.go:90-119 | A block closed by its right sum reaches the host's parser as MDB_Success with just its data |
| EndToEnd.SessionIsDelivered | hardware/i2c-mdb-atmega-gate/i2c-mdb_atmega-gate/main.c:67-84 | Any number of exchanges one after the other, each delivered in full, from any ready state, with nothing else on the MDB bus |
| EndToEnd.PollsDoNothing | hardware/i2c-mdb-atmega-gate/i2c-mdb_atmega-gate/main.c:67-84 | While a transaction is under way, main-loop polls placed anywhere among the interrupts do not change where the run ends |
| EndToEnd.InitialReachesReady | hardware/i2c-mdb-atmega-gate/i2c-mdb_atmega-gate/main.c:50-84 | From start-up one poll and one host read deliver the greeting and reach the state from which the exchanges above start |
| EndToEnd.TimeoutIsReached | hardware/i2c-mdb-atmega-gate/i2c-mdb_atmega-gate/main.c:214-229 | From any ready state a request that times out while it is sent leads to the idle link with its transmit interrupt on |
| GatewayInvariant.StepKeepsInv | hardware/i2c-mdb-atmega-gate/i2c-mdb_atmega-gate/mdb.c:57-232 | Each interrupt, mdb_step, twi_step and command keeps: used within the buffer; what was written is the first used bytes of mdb_out with bit 9 on the first only; an error state has a nonzero code; the checksum is the sum of mdb_in; the buffers are whole packets and first in, first out |
| GatewayInvariant.RunKeepsInv | hardware/i2c-mdb-atmega-gate/i2c-mdb_atmega-gate/main.c:67-84 | The same after every admissible run of any length and interleaving |
| GatewayInvariant.InitialInv | hardware/i2c-mdb-atmega-gate/i2c-mdb_atmega-gate/main.c:50-65 | The state in which main enters its loop satisfies it |
| GatewayInvariant.TwiIsrKeepsInv | hardware/i2c-mdb-atmega-gate/i2c-mdb_atmega-gate/twi.c:187-225 | Reads, NACKed reads and their clears keep: accepted packets = consumed, then those in twi_out, then those in master_out, each buffer being the encodings of its packets |
| GatewayInvariant.SwapKeepsInv | hardware/i2c-mdb-atmega-gate/i2c-mdb_atmega-gate/twi.c:74-79 | The swap and the clear after it keep the reply queue first in, first out |
| GatewayInvariant.EmitKeepsInv | hardware/i2c-mdb-atmega-gate/i2c-mdb_atmega-gate/twi.c:91-122 | Appending a packet keeps it; an overflow marks the queue as no longer intact |
| GatewayHonesty.SuccessNeedsBlock | hardware/i2c-mdb-atmega-gate/i2c-mdb_atmega-gate/mdb.c:115-167 | By position, equal packets included: a step that appends a success with data to the queue's history is a poll of the MDB side that has heard exactly that data closed by a ninth-bit word equal to its sum; it appends nothing else and forgets what it heard |
| GatewayHonesty.HeardWasReceived | hardware/i2c-mdb-atmega-gate/i2c-mdb_atmega-gate/mdb.c:169-201 | What the link has heard is always the end of what the bus delivered in the run, until a Reset command stops the interrupts; and while no error is pending every word of it came without line errors |
| GatewayHonesty.SuccessWasReceived | hardware/i2c-mdb-atmega-gate/i2c-mdb_atmega-gate/mdb.c:115-201 | Over whole runs: every success with data in the queue's history, each repetition for itself, has a poll of its own before which the last words on the bus were that data, closed by its sum, every one of them without line errors |
| GatewayHonesty.SuccessIsNotReplayed | hardware/i2c-mdb-atmega-gate/i2c-mdb_atmega-gate/mdb.c:115-201 | No block is reported twice: between any two polls that append packets, the whole block of a later success came in again |
| GatewayReceive.FeedRefinesDecode | hardware/i2c-mdb-atmega-gate/i2c-mdb_atmega-gate/mdb.c:169-201 | For every stream of words, the receive interrupt from the start of reception ends exactly where the specification decoder does, and touches nothing of the transmitter |
| GatewayReceive.DecodeBlock | hardware/i2c-mdb-atmega-gate/i2c-mdb_atmega-gate/mdb.c:190-199 | A closed block of at most 36 bytes decodes to its data and closing byte |
| GatewayReceive.DecodeTooLong | hardware/i2c-mdb-atmega-gate/i2c-mdb_atmega-gate/mdb.c:193-198 | A 37th data word decodes to an overflow |
| GatewayReceive.BlockIsReported | hardware/i2c-mdb-atmega-gate/i2c-mdb_atmega-gate/mdb.c:115-167 | Any block, any closing byte and two polls queue exactly one packet: success, NAK or invalid end for an empty block, the data when the sum is right, an empty success when it is not; with the right handshake byte on the bus when the transmitter is on |
| GatewayReceive.ReportedIffSumRight | hardware/i2c-mdb-atmega-gate/i2c-mdb_atmega-gate/mdb.c:142-164 | For a non-empty block the run from the start of reception to the second poll queues that data as a success if and only if the closing byte is its sum, with or without room in the queue |
| GatewayReceive.OverflowIsReported | hardware/i2c-mdb-atmega-gate/i2c-mdb_atmega-gate/mdb.c:193-198 | The run of 37 data words and a poll queues the receive overflow with the state and the buffer's size, and the link is idle again |
| GatewayErrors.LineErrorIsReported | hardware/i2c-mdb-atmega-gate/i2c-mdb_atmega-gate/mdb.c:169-182 | In any state a word with line errors ends what is going on: the next poll queues 0x91 with that state and the error flags, whatever the word, and the link is idle with nothing sent |
| GatewayErrors.LineErrorEndsReception | hardware/i2c-mdb-atmega-gate/i2c-mdb_atmega-gate/mdb.c:179-182 | From the start of reception, after any data of at most 36 bytes, a word with line errors, its ninth bit set or not, ends in exactly 0x91 with [3, flags]: no data is reported |
| GatewayErrors.StrayWordIsReported | hardware/i2c-mdb-atmega-gate/i2c-mdb_atmega-gate/mdb.c:184-188 | In any state but reception a good word ends what is going on: 0x90 with the state and the word's value |
| GatewayErrors.WordAfterEnd | hardware/i2c-mdb-atmega-gate/i2c-mdb_atmega-gate/mdb.c:184-192 | A word after the end of a block, before the main loop has looked, loses the block: 0x90 with [4, value] |
| GatewayErrors.TimeoutIsReported | hardware/i2c-mdb-atmega-gate/i2c-mdb_atmega-gate/main.c:214-229 | In any state but idle and bus reset the timer's overflow ends what is going on: 0x8b with the state and 5 |
| GatewayErrors.IdleTimerStops | hardware/i2c-mdb-atmega-gate/i2c-mdb_atmega-gate/main.c:214-218 | In an idle link the timer only stops |
| GatewayErrors.ReceptionIsTimed | hardware/i2c-mdb-atmega-gate/i2c-mdb_atmega-gate/mdb.c:227-232 | TX complete starts the receiver empty, with the timer running |
| GatewayErrors.SilenceIsReported | hardware/i2c-mdb-atmega-gate/i2c-mdb_atmega-gate/mdb.c:190-200 | Silence after any number of data words, or none, is reported as a timeout of reception: each word starts the timer anew |
| GatewayErrors.EndStopsTimer | hardware/i2c-mdb-atmega-gate/i2c-mdb_atmega-gate/mdb.c:169-192 | A block that has ended cannot time out any more |
| GatewayErrors.SendingCanTimeOut | hardware/i2c-mdb-atmega-gate/i2c-mdb_atmega-gate/mdb.c:204-224 | A request that stops at any of its bytes, the last one included, is reported as a timeout of sending |
| GatewayErrors.RetryListens | hardware/i2c-mdb-atmega-gate/i2c-mdb_atmega-gate/mdb.c:227-232 | A receiver restarted after a retry keeps the retry |
| GatewayErrors.SecondBadBlock | hardware/i2c-mdb-atmega-gate/i2c-mdb_atmega-gate/mdb.c:142-150 | After a retry a block with a wrong sum puts NAK on the bus and queues 0x89 with the closing byte |
| GatewayErrors.GoodBlock | hardware/i2c-mdb-atmega-gate/i2c-mdb_atmega-gate/mdb.c:160-164 | After a retry or not, a block with its right sum puts ACK on the bus and queues the data, with one poll |
| GatewayErrors.EmptyBlockIsReported | hardware/i2c-mdb-atmega-gate/i2c-mdb_atmega-gate/mdb.c:127-140 | After a retry or not, an empty block queues 0x09 for the byte 0x00, 0x8a for 0xff, 0x8c with the byte for any other, and puts nothing on the bus |
| GatewayRetry.RetryDoesNotRecover | hardware/i2c-mdb-atmega-gate/i2c-mdb_atmega-gate/mdb.c:151-156 | After a block with a wrong sum and the RET that it is answered with, no run at all queues a success with data before the transmitter finishes another request, whatever is repeated and whenever the main loop polls |
| GatewayRetry.DeafReportsNothing | hardware/i2c-mdb-atmega-gate/i2c-mdb_atmega-gate/mdb.c:169-201 | From any state in which the receiver is off and holds no data, no run without a TX complete interrupt queues a success with data |
| GatewayReceive.RepetitionIsUnexpected | hardware/i2c-mdb-atmega-gate/i2c-mdb_atmega-gate/mdb.c:151-201 | When the repetition comes between two polls, its last word ends as an unexpected one |
| GatewayTransmit.PumpSends | hardware/i2c-mdb-atmega-gate/i2c-mdb_atmega-gate/mdb.c:204-224 | After k data-register-empty interrupts exactly k more bytes are out, and the switch to TX complete happens exactly at the last |
| GatewayTransmit.RequestSentIff | hardware/i2c-mdb-atmega-gate/i2c-mdb_atmega-gate/mdb.c:68-86 | From any idle link, whatever its interrupt flags: some number of data-register-empty interrupts writes the request whole with its sum and enables TX complete if and only if it has 1 to 35 bytes |
| GatewayErrors.OnlySumIsSent | hardware/i2c-mdb-atmega-gate/i2c-mdb_atmega-gate/main.c:164-169 | A request without data or of more than 36 bytes puts only its sum on the bus, as the first word |
| GatewayErrors.NothingLeftToSend | hardware/i2c-mdb-atmega-gate/i2c-mdb_atmega-gate/mdb.c:204-212 | The next interrupt of such a request is reported: 0x8e with [2, 1] |
| GatewayErrors.FullBlockHasNoSum | hardware/i2c-mdb-atmega-gate/i2c-mdb_atmega-gate/main.c:164-169 | A request of 36 bytes is sent whole, without a sum |
| GatewayLeftovers.ErrorRepeats | hardware/i2c-mdb-atmega-gate/i2c-mdb_atmega-gate/mdb.c:57-66 | Error packets repeat: n rounds of the left-on interrupt and the main loop queue n send-overflow packets, and from the first on come back to the very same link state |
| GatewayLeftovers.TimeoutLeavesInterruptOn | hardware/i2c-mdb-atmega-gate/i2c-mdb_atmega-gate/main.c:214-229 | A transmission that times out is reported by the next poll, which leaves the link idle with the data-register-empty interrupt still enabled |
| GatewayLeftovers.QuietIff | hardware/i2c-mdb-atmega-gate/i2c-mdb_atmega-gate/mdb.c:57-66 | An idle gateway left alone queues nothing, in any run of transmit interrupts, timer and polls, if and only if both transmit interrupts are off |
| GatewayLeftovers.SixteenFill | hardware/i2c-mdb-atmega-gate/i2c-mdb_atmega-gate/twi.c:91-122 | With the interrupt left on and an empty queue, sixteen rounds queue sixteen packets and the seventeenth overflows it |
| GatewayStreaming.ReplyIsStreamed | hardware/i2c-mdb-atmega-gate/i2c-mdb_atmega-gate/twi.c:187-225 | A read of k bytes of a reply of length L yields L, the data and one zero as far as k goes; with k >= L + 3 it consumes the reply and the slave answers again, otherwise the reply stays and the slave no longer answers |
| GatewayStreaming.NothingIsStreamed | hardware/i2c-mdb-atmega-gate/i2c-mdb_atmega-gate/twi.c:187-225 | Without a reply a read yields one zero, and the slave answers again if and only if two bytes or more were read |
| GatewayStreaming.ReadReplyIsRun | hardware/i2c-mdb-atmega-gate/i2c-mdb_atmega-gate/twi.c:124-227 | That read is one run of bus interrupts of the whole gateway |
| GatewayLongReply.LongReplyIsLast | hardware/mega-client/mega.go:104-105 | A write of one Debug and twelve Config commands makes a reply of 79 bytes; the client's read gets it whole, it stays in its buffer, and no run after it moves another byte over I2C |
| GatewayReach.OutOfReachIff | hardware/i2c-mdb-atmega-gate/i2c-mdb_atmega-gate/twi.c:124-227 | No run whatever moves another byte over I2C, either way, if and only if the slave is not addressed and TWEA is clear, or interrupts are off |
| GatewayReach.ReadLosesReachIff | hardware/i2c-mdb-atmega-gate/i2c-mdb_atmega-gate/twi.c:187-226 | A read leaves the gateway out of reach for good if and only if the host ended it by a NACK: with fewer than L + 3 bytes of a reply of length L, or than 2 of none |
| GatewayReach.ClientReadIsLastIff | hardware/mega-client/mega.go:104-105 | The client's 81-byte read gets the whole reply; it consumes it if and only if it has at most 78 bytes, and is the last transfer that ever moves a byte if and only if it has 79 or 80 |
| GatewayReach.BusErrorLosesReach | hardware/i2c-mdb-atmega-gate/i2c-mdb_atmega-gate/twi.c:147-152 | A bus error leaves the gateway out of reach too, at any time |
| GatewayReach.OtherStatusLosesReach | hardware/i2c-mdb-atmega-gate/i2c-mdb_atmega-gate/twi.c:226-226 | Between transfers so does a status that the handler does not know; no status at all is only counted |
| GatewayReach.RefusedByteIsLast | hardware/i2c-mdb-atmega-gate/i2c-mdb_atmega-gate/twi.c:173-177 | After a written byte that the slave refused no transfer comes and no poll of the host side ever does anything |
| GatewayDispatch.CommandsOfEncoding | hardware/i2c-mdb-atmega-gate/i2c-mdb_atmega-gate/twi.c:57-69 | Any concatenation of client frames is taken apart into exactly their headers and data, each with its offset, in order, up to one that does not return |
| GatewayDispatch.FramesArePerformed | hardware/i2c-mdb-atmega-gate/i2c-mdb_atmega-gate/twi.c:46-82 | Host to device: any frames of at most 93 bytes together, written and then polled for, are performed one after the other exactly as meant, and the input is clear |
| GatewayDispatch.FrameIsPerformed | hardware/i2c-mdb-atmega-gate/i2c-mdb_atmega-gate/twi.c:46-82 | One frame alone has exactly the effect of its command |
| GatewayAnswers.BusyRefusesTransaction | hardware/i2c-mdb-atmega-gate/i2c-mdb_atmega-gate/main.c:159-163 | While anything is under way on the MDB side, the run that writes a transaction of any data and polls for it answers exactly MDB_Busy, and changes nothing else of the gateway |
| GatewayAnswers.BusyRefusesReset | hardware/i2c-mdb-atmega-gate/i2c-mdb_atmega-gate/main.c:148-151 | The same for a bus reset with its two bytes |
| GatewayAnswers.ResetNeedsDuration | hardware/i2c-mdb-atmega-gate/i2c-mdb_atmega-gate/main.c:143-147 | A bus reset with any other number of bytes answers only Bad_Packet, busy or not |
| GatewayAnswers.TransactionBegins | hardware/i2c-mdb-atmega-gate/i2c-mdb_atmega-gate/main.c:164-169 | With nothing under way and the UART ready: mdb_out holds data and sum as far as they fit, its first byte is on the bus with the ninth bit, interrupt and timer are on, and the answer is MDB_Started |
| GatewayAnswers.BusyUartIsTold | hardware/i2c-mdb-atmega-gate/i2c-mdb_atmega-gate/mdb.c:68-73 | With the UART not ready: the link is cleared, and the answers are UART_Send_Busy and then MDB_Started |
| GatewayAnswers.PollIsSilent | hardware/i2c-mdb-atmega-gate/i2c-mdb_atmega-gate/main.c:111-115 | The poll command changes nothing at all |
| GatewayAnswers.PollWithDataIsBad | hardware/i2c-mdb-atmega-gate/i2c-mdb_atmega-gate/main.c:111-115 | With data it answers only Bad_Packet [1] |
| GatewayAnswers.ConfigForgetsCause | hardware/i2c-mdb-atmega-gate/i2c-mdb_atmega-gate/main.c:116-119 | Config answers Not_Implemented and clears the saved reset cause |
| GatewayAnswers.ResetStops | hardware/i2c-mdb-atmega-gate/i2c-mdb_atmega-gate/main.c:120-142 | Reset stops interrupts and main loop, Flash the main loop; neither answers |
| GatewayAnswers.NothingAfterReset | hardware/i2c-mdb-atmega-gate/i2c-mdb_atmega-gate/main.c:40-46 | After Reset no event does anything; after Flash no poll does, and every interrupt does what it did before |
| GatewayAnswers.DebugTells | hardware/i2c-mdb-atmega-gate/i2c-mdb_atmega-gate/main.c:122-136 | Debug answers 40 bytes: M, 1, the state; T, 8, the eight counters, the stop of this very write counted; U, the reset cause; zeros |
| GatewayAnswers.CustomIsNotImplemented | hardware/i2c-mdb-atmega-gate/i2c-mdb_atmega-gate/main.c:170-173 | A custom transaction answers only Not_Implemented |
| GatewayAnswers.OtherHeaderIsUnknown | hardware/i2c-mdb-atmega-gate/i2c-mdb_atmega-gate/main.c:174-176 | Any other header answers only Unknown_Command |
| GatewayAnswers.OneByteComesBack | hardware/i2c-mdb-atmega-gate/i2c-mdb_atmega-gate/twi.c:51-54 | A single byte comes back as Response_TWI |
| GatewayAnswers.TwoBytesAreBad | hardware/i2c-mdb-atmega-gate/i2c-mdb_atmega-gate/main.c:91-94 | Two bytes answer only Bad_Packet [0] |
| GatewayAnswers.LongClaimIsBad | hardware/i2c-mdb-atmega-gate/i2c-mdb_atmega-gate/main.c:95-99 | A frame that claims more than was written answers only Bad_Packet [0] |
| GatewayAnswers.WrongCrcIsTold | hardware/i2c-mdb-atmega-gate/i2c-mdb_atmega-gate/main.c:100-106 | A frame with a wrong CRC answers only Invalid_CRC with the byte received |
| GatewayAnswers.DamagedCommandIsRefused | hardware/i2c-mdb-atmega-gate/i2c-mdb_atmega-gate/main.c:100-106 | A command damaged within any eight consecutive bits, its length byte spared, is never performed: the answer is Invalid_CRC and nothing else changes |
| GatewayAnswers.LastIsLast | hardware/i2c-mdb-atmega-gate/i2c-mdb_atmega-gate/twi.c:57-69 | Of several commands the last is performed last, on what the others have left, unless one of those does not return |
| GatewayAnswers.BadFrameIsPassed | hardware/i2c-mdb-atmega-gate/i2c-mdb_atmega-gate/twi.c:57-69 | A frame with a wrong CRC is passed over by its claimed length, and the command behind it is performed |
| GatewayDispatch.MeantStands | hardware/i2c-mdb-atmega-gate/i2c-mdb_atmega-gate/twi.c:57-69 | Command k stands at the offset where the frames before it end, and its frame ends where those up to it end, so the last one ends at the end |
| GatewayDispatch.WriteFillsInput | hardware/i2c-mdb-atmega-gate/i2c-mdb_atmega-gate/twi.c:154-184 | A bus write of at most 93 bytes, to a slave that answers, leaves just those bytes in twi_in, and the slave answers again |
| GatewayBus.LongWriteIsCut | hardware/i2c-mdb-atmega-gate/i2c-mdb_atmega-gate/twi.c:162-168 | A bus write of any length leaves its first 93 bytes |
| GatewayBus.WriteIsNotPolled | hardware/i2c-mdb-atmega-gate/i2c-mdb_atmega-gate/twi.c:154-184 | Between the address and the stop of a write, whatever has come so far, twi_step does nothing |
| GatewayBus.ReadIsNotPolled | hardware/i2c-mdb-atmega-gate/i2c-mdb_atmega-gate/twi.c:187-212 | After the address and after every byte of a read, twi_step does nothing |
| GatewayBus.PollBringsUp | hardware/i2c-mdb-atmega-gate/i2c-mdb_atmega-gate/twi.c:74-79 | A poll with nothing to take swaps in the queued replies exactly when the reply before is read |
| GatewayBus.BusErrorDropsBoth | hardware/i2c-mdb-atmega-gate/i2c-mdb_atmega-gate/twi.c:147-152 | A bus error empties command and reply buffer, and leaves the second reply buffer and the MDB side alone |
| GatewayBus.CountersCount | hardware/i2c-mdb-atmega-gate/i2c-mdb_atmega-gate/twi.c:124-152 | Over any run each of the eight counters moves once for each of its events, modulo 256 |
| GatewayBusReset.ResetNeverEndsAlone | hardware/i2c-mdb-atmega-gate/i2c-mdb_atmega-gate/main.c:214-229 | With both transmit interrupts off, a bus reset does not return to idle in any run without a word from the MDB bus, whatever the timer, the main loop and the host do |
| GatewayBusReset.StaysInResetIff | hardware/i2c-mdb-atmega-gate/i2c-mdb_atmega-gate/mdb.c:203-232 | In any bus reset: no run without a word from the bus leaves it if and only if both transmit interrupts are off, or all interrupts are after a Reset command |
| GatewayBusReset.ResetIsTaken | hardware/i2c-mdb-atmega-gate/i2c-mdb_atmega-gate/main.c:143-158 | The host's command is taken by any idle link, its interrupt flags left as they were |
| GatewayBusReset.LeftoverEndsReset | hardware/i2c-mdb-atmega-gate/i2c-mdb_atmega-gate/main.c:143-158 | After a transmission that timed out, a bus reset is over without any word from the bus: the interrupt still enabled ends it |
| GatewayBusReset.WordEndsReset | hardware/i2c-mdb-atmega-gate/i2c-mdb_atmega-gate/mdb.c:169-201 | Any word at all ends it, well received or with line errors, whatever the interrupt flags: the next poll queues the word's report and the link is idle, its transmitter as it was |
| GatewayBusReset.ResettingIsBusy | hardware/i2c-mdb-atmega-gate/i2c-mdb_atmega-gate/main.c:143-163 | In a bus reset every command leaves the link alone and transactions are refused as busy |
| MegaClient.ParsedPacket.Parse | hardware/mega-client/protocol.go:26-52 | The in-place parser returns the verdict of the specification parser and, on success, its header and data |
| MegaClient.ParseResponseLoop | hardware/mega-client/protocol.go:103-133 | The loop calls back the packets, and ends with the error, of the specification; its 8-bit offset never wraps |
| MegaClient.ParseLoop | hardware/mega-client/protocol.go:119-133 | The loop over the counted bytes ends as the recursive parser does |
| MegaClient.ParseEncoded | hardware/mega-client/protocol.go:26-52 | An encoded packet with a known header, whatever follows it, parses to that packet; an unknown header is refused |
| MegaClient.ParsedIsEncoded | hardware/mega-client/protocol.go:26-52 | Whatever parses is the encoding of the packet it parses to |
| MegaClient.RefusedBecause | hardware/mega-client/protocol.go:26-52 | Each of the five errors of Parse exactly where it applies: empty, a length below 3, a length beyond the bytes, no packet's encoding, an encoding with an unknown header |
| MegaClient.KnownHeadersAreNamed | hardware/mega-client/protocol.go:44-46 | The known headers are exactly the named responses |
| MegaClient.ResponseIsRefused | hardware/mega-client/protocol.go:103-118 | Refused as a whole, with nothing seen, exactly when empty, or its first byte claims more than 80 or as much as there are bytes; a claim of none is no error |
| MegaClient.CorruptionIsRejected | hardware/mega-client/protocol.go:37-42 | Any burst of at most eight bits in a valid packet, its length byte spared, is answered with the CRC error |
| MegaClient.ParseOfEncoding | hardware/mega-client/protocol.go:103-133 | Device to host: length byte, encodings of known packets and any trailing bytes call back exactly those packets and return nil |
| MegaClient.ParseResponseIsExact | hardware/mega-client/protocol.go:103-133 | On any input past the length checks: success exactly when re-encoding the callbacks gives back the counted bytes; otherwise the callbacks are the valid packets before the first bad one |
| MegaClient.ParseAllEncoded | hardware/mega-client/protocol.go:119-133 | Encodings of known packets, one after another, parse to just those packets |
| MegaClient.ParseAllIsExact | hardware/mega-client/protocol.go:119-133 | For any bytes: the packets seen are exactly the valid ones before the first bad one |
| MegaClient.FrameCommand | hardware/mega-client/mega.go:90-95 | The array that Do fills in place is length, payload and CRC |
| MegaClient.FrameIsLaid | hardware/mega-client/mega.go:90-95 | Length byte, payload and CRC in their places; the length wraps from 254 bytes of payload on |
| MegaClient.CommandFrameIsPacket | hardware/mega-client/mega.go:90-95 | A client frame is the encoding of the packet with that header and data: one format in both directions |
| Protocol.EncodeChecks | hardware/i2c-mdb-atmega-gate/i2c-mdb_atmega-gate/twi.c:91-122 | Every encoded packet passes the receivers' CRC comparison and gives back its header and data |
| Protocol.ChecksIsEncoded | hardware/mega-client/protocol.go:37-42 | The only frames that pass the comparison are encodings |
| Crc.BurstDetected | crc/crc.go:54-60 | A frame that passes, of any length, changed only inside eight consecutive bit positions, CRC byte included, no longer passes |
| Crc.NineBitBurstPasses | crc/crc.go:5-17 | Eight is the best possible: the nine-bit pattern of the polynomial goes undetected anywhere |
| Crc.ChecksIffDivides | hardware/mega-client/protocol.go:37-42 | The comparison succeeds if and only if dividing the whole frame, CRC included, leaves nothing |
| Crc.Composes | hardware/i2c-mdb-atmega-gate/i2c-mdb_atmega-gate/twi.c:119-121 | The CRC of a ++ b from i is the CRC of b from the CRC of a, so the split computation of master_out_n equals a single pass |
| Crc.WindowIsInjective | crc/crc.go:44-46 | Up to eight message bits are determined by the register they lead to |
| Crc.DifferenceIsSpent | crc/crc.go:44-46 | Linearity: when two registers differ as their next messages do, they end equal |
| CrcPolynomial.CrcIsTheRemainder | crc/crc.go:54-60 | The CRC from 0 is the remainder of M(x) x^8 modulo x^8+x^7+x^4+x+1 over GF(2), and nothing else is |
| CrcPolynomial.DivisionIsUnique | crc/crc.go:5-17 | That division has one quotient and one remainder |
| CrcTable.Reference | crc/crc.go:5-17 | The bitwise loop computes eight clocks of the divider |
| CrcTable.TableIsBitwise | crc/crc.go:19-42 | Every entry of the table is what the bitwise reference gives |
| CrcTable.NextIsSerial | crc/crc.go:44-46 | One table step on a byte is eight clocks of the divider on its bits |
| CrcTable.MachineByteIsTheByte | crc/crc.go:44-46 | A byte in a bit-vector register has the value of the byte |
| CrcTable.Fold | crc/crc.go:54-60 | The table-driven loop computes the CRC of every byte string from every starting value |
| CrcTable.FoldAfter | crc/crc.go:62-68 | The fold with its first byte apart computes the CRC of the whole |
| Buffers.Buffer.Append | hardware/i2c-mdb-atmega-gate/i2c-mdb_atmega-gate/buffer.c:31-38 | Appends one byte if it fits, else changes nothing and says so |
| Buffers.Buffer.AppendN | hardware/i2c-mdb-atmega-gate/i2c-mdb_atmega-gate/buffer.c:40-48 | All of the bytes or none, in the array in place |
| Buffers.Buffer.Copy | hardware/i2c-mdb-atmega-gate/i2c-mdb_atmega-gate/buffer.c:50-56 | Replaces the contents, cut to the buffer's size |
| Buffers.Buffer.ClearFast | hardware/i2c-mdb-atmega-gate/i2c-mdb_atmega-gate/buffer.c:14-17 | Empties the buffer by its counters |
| Buffers.Buffer.ClearFull | hardware/i2c-mdb-atmega-gate/i2c-mdb_atmega-gate/buffer.c:19-22 | Empties it and zeroes the array |
| Buffers.Swap | hardware/i2c-mdb-atmega-gate/i2c-mdb_atmega-gate/buffer.c:58-63 | Exchanges every field of the two buffers |
| FirmwareMdb.Mdb.OnRx | hardware/i2c-mdb-atmega-gate/i2c-mdb_atmega-gate/mdb.c:169-201 | The receive interrupt on the buffers in place takes the step of the state machine, every branch |
| FirmwareMdb.Mdb.OnUdre | hardware/i2c-mdb-atmega-gate/i2c-mdb_atmega-gate/mdb.c:204-224 | The same for the data-register-empty interrupt |
| FirmwareMdb.Mdb.OnTx | hardware/i2c-mdb-atmega-gate/i2c-mdb_atmega-gate/mdb.c:227-232 | The same for transmit complete |
| FirmwareMdb.Mdb.OnTimer | hardware/i2c-mdb-atmega-gate/i2c-mdb_atmega-gate/main.c:214-229 | The same for the timer |
| FirmwareMdb.Mdb.Reset | hardware/i2c-mdb-atmega-gate/i2c-mdb_atmega-gate/mdb.c:57-66 | mdb_reset clears the link, and leaves the transmit interrupt flags as they are |
| FirmwareMdb.Mdb.StartSend | hardware/i2c-mdb-atmega-gate/i2c-mdb_atmega-gate/mdb.c:68-86 | The first byte goes out with bit 9 and the interrupt is enabled |
| FirmwareMdb.Mdb.StartReceive | hardware/i2c-mdb-atmega-gate/i2c-mdb_atmega-gate/mdb.c:50-55 | Clears what was received and starts the timer |
| FirmwareMdb.Mdb.FastError | hardware/i2c-mdb-atmega-gate/i2c-mdb_atmega-gate/mdb.c:88-93 | Keeps the state in which the error happened, its code and data |
| FirmwareTwi.Twi.MasterOut | hardware/i2c-mdb-atmega-gate/i2c-mdb_atmega-gate/twi.c:91-107 | Queues a short packet, or overwrites the reply buffer with the overflow report |
| FirmwareTwi.Twi.MasterOutN | hardware/i2c-mdb-atmega-gate/i2c-mdb_atmega-gate/twi.c:109-122 | The same for a long packet, appended piece by piece |
| FirmwareTwi.AppendPieces | hardware/i2c-mdb-atmega-gate/i2c-mdb_atmega-gate/twi.c:116-121 | The pieces appended, with the CRC folded in two parts, are the encoding of the packet |
| FirmwareTwi.Twi.ReportOverflow | hardware/i2c-mdb-atmega-gate/i2c-mdb_atmega-gate/twi.c:84-89 | Replaces the reply by the overflow packet |
| FirmwareTwi.Twi.SwapIfRead | hardware/i2c-mdb-atmega-gate/i2c-mdb_atmega-gate/twi.c:74-79 | A reply read to its end makes room for the queued one |
| FirmwareTwi.Twi.OnTwi | hardware/i2c-mdb-atmega-gate/i2c-mdb_atmega-gate/twi.c:124-227 | The I2C interrupt in place takes the step of the state machine, loads the same byte and sets the same acknowledge bit |
| FirmwareMain.MemSum | hardware/i2c-mdb-atmega-gate/i2c-mdb_atmega-gate/main.c:192-198 | The loop computes the true sum of the bytes modulo 256 |
| FirmwareMain.Mega.Boot | hardware/i2c-mdb-atmega-gate/i2c-mdb_atmega-gate/main.c:50-65 | Start-up ends in the initial state, its greeting queued |
| FirmwareMain.Mega.MdbStep | hardware/i2c-mdb-atmega-gate/i2c-mdb_atmega-gate/mdb.c:115-167 | mdb_step in place takes the step of the state machine, and asks to go on exactly when there was something to do |
| FirmwareMain.Mega.MasterCommand | hardware/i2c-mdb-atmega-gate/i2c-mdb_atmega-gate/main.c:89-178 | One command, its frame checks included, has exactly the effect of the dispatch specification and claims the bytes it should, for every input that it does not read past |
| FirmwareMain.Mega.TwoBytesAreUnknown | hardware/i2c-mdb-atmega-gate/i2c-mdb_atmega-gate/main.c:95-109 | A frame that claims two bytes fails its CRC or is an unknown command, whatever follows it |
| FirmwareMain.Mega.CommandLoop | hardware/i2c-mdb-atmega-gate/i2c-mdb_atmega-gate/twi.c:57-69 | The loop over one bus write performs the commands of that write, one after the other, up to one that does not return, for every write that it reads only the buffer of |
| FirmwareMain.Mega.TwiStep | hardware/i2c-mdb-atmega-gate/i2c-mdb_atmega-gate/twi.c:46-82 | twi_step in place takes the step of the state machine |
| FirmwareMain.Mega.Handle | hardware/i2c-mdb-atmega-gate/i2c-mdb_atmega-gate/main.c:67-84 | Each enabled interrupt or main-loop call in place takes the step of the state machine |
| FirmwareMain.Mega.RunAll | hardware/i2c-mdb-atmega-gate/i2c-mdb_atmega-gate/main.c:67-84 | For every run, the buffers in place end where the state machine ends, so all of the above holds of them |
| FirmwareMain.Mega.Finish | hardware/i2c-mdb-atmega-gate/i2c-mdb_atmega-gate/mdb.c:95-113 | The mdb_finish family: resets the link and queues the answer |
| FirmwareMain.Mega.EmptyBlock | hardware/i2c-mdb-atmega-gate/i2c-mdb_atmega-gate/mdb.c:127-140 | An empty block ends in success, NAK or invalid end by its closing byte |
| FirmwareMain.Mega.DataBlock | hardware/i2c-mdb-atmega-gate/i2c-mdb_atmega-gate/mdb.c:142-164 | A block with data is acknowledged and handed over, refused after a retry, or asked for again |
| FirmwareMain.Mega.Execute | hardware/i2c-mdb-atmega-gate/i2c-mdb_atmega-gate/main.c:108-177 | The dispatch on the header has the effect of the specification for every header and payload |
| FirmwareMain.Mega.TransactionCommand | hardware/i2c-mdb-atmega-gate/i2c-mdb_atmega-gate/main.c:159-169 | Busy refusal, or mdb_out loaded with data and sum and the transmission started |
| FirmwareMain.Mega.BusResetCommand | hardware/i2c-mdb-atmega-gate/i2c-mdb_atmega-gate/main.c:143-158 | Length check, busy refusal, or the line pulled low |
| FirmwareMain.Mega.Debug | hardware/i2c-mdb-atmega-gate/i2c-mdb_atmega-gate/main.c:122-136 | The debug report: states, statistics and the saved reset cause, padded to 40 bytes |
| FirmwareTwi.Twi.OnReceive | hardware/i2c-mdb-atmega-gate/i2c-mdb_atmega-gate/twi.c:154-184 | The write half of the I2C interrupt, bus error included, with the acknowledge bit that it leaves |
| FirmwareTwi.Twi.OnTransmit | hardware/i2c-mdb-atmega-gate/i2c-mdb_atmega-gate/twi.c:187-225 | The read half, with the byte that it loads and the acknowledge bit that it leaves |
| FirmwareTwi.ShortPacket | hardware/i2c-mdb-atmega-gate/i2c-mdb_atmega-gate/twi.c:84-107 | The local arrays of the short replies are the encodings of their packets |
| FirmwareTwi.SplitCrc | hardware/i2c-mdb-atmega-gate/i2c-mdb_atmega-gate/twi.c:119-121 | The CRC folded in two parts is the CRC of the whole packet |
| Currency.ChosenIsThere | currency/currency.go:119-133 | Whatever is picked fits the amount and is there: no count and no amount underflows |
| Currency.SpendConserves | currency/currency.go:103-133 | For every strategy: the total falls by exactly the amount when it is paid, by less when not, and no count rises |
| CurrencyPass.RescanIsSinglePass | currency/currency.go:103-133 | For every order of positive nominals the rescanning loop ends exactly where one pass taking min(count, rest div n) of each does |
| CurrencyAgreement.DryRunAgrees | currency/currency.go:92-116 | Dry run and commit spend the same coins, whatever order the sort gives ties, for every strategy whose keys tell the present nominals apart, nested combinations included |
| CurrencyAgreement.OrdersAreSame | currency/currency.go:137-147 | Two sorts by a key that tells the present nominals apart differ only in where absent nominals stand |
| CurrencyAgreement.SameSpending | currency/currency.go:103-133 | Plans that differ only so spend the same coins, whatever the amount |
| CurrencyTaken.SpendIsTaken | currency/currency.go:103-116 | Spending is taking the coins of the sequence Taken: what is left, and paid exactly when they make up the amount |
| CurrencyTaken.LargestIsTaken | currency/currency.go:169-171 | Least count: each coin taken is of the largest nominal that is still there and still fits |
| CurrencyTaken.MostAvailableIsTaken | currency/currency.go:172-174 | Most available: each coin taken is of a nominal of which the group had most at the start, among those still there that still fit |
| CurrencyTaken.MostFrequentIsTaken | currency/currency.go:181-186 | Statistical: each coin taken is of a nominal that the statistics count most often, among those still there that still fit |
| CurrencyTaken.DrawDecides | currency/currency.go:200-205 | Combined: coin k is what the first strategy would take if draw k is below the ratio, and what the second one would take if not |
| CurrencyTaken.PanicsIff | currency/currency.go:119-133 | With positive nominals a withdrawal panics exactly when the order is shorter than the group, before any coin is taken |
| CurrencyTaken.ZeroPanics | currency/currency.go:106-113 | A pick of nominal 0 for a positive amount panics |
| CurrencyAgreement.AgreesIffNeverTies | currency/currency.go:137-149 | For a sort key: dry run and commit always agree on success if and only if the key never gives two nominals the same value |
| CurrencyTies.GenericAgreesIff | currency/currency.go:92-116 | For one group of positive nominals: dry run and commit spend the same coins, for every amount and every legal sort, if and only if the key does not tie among the nominals present |
| CurrencyTies.StatisticalAgreesIff | currency/currency.go:176-187 | The same for the statistical strategy: if and only if the counts of the statistics do not tie among the nominals present, or the statistics have too few nominals for any withdrawal |
| CurrencyTies.SpendsAlikeIff | currency/currency.go:137-147 | Sorting one group and spending from another: all legal sorts end alike for every amount up to what there is, if and only if no key ties among the nominals present, or there are too few nominals to sort |
| CurrencyTies.OrdersSpendApart | currency/currency.go:103-133 | Two sorts that agree up to two present nominals and have those either way round end differently for the worth of all coins before them and one of the larger |
| CurrencySort.BothOrders | currency/currency.go:137-147 | Of two nominals with the same key either may be sorted first, behind the same others |
| CurrencyAgreement.LeastCountAgrees | currency/currency.go:169-174 | Least-count always agrees; most-available does not (one 2 and one 1) |
| CurrencyAgreement.TieDisagrees | currency/currency.go:137-147 | Every tie of a key gives a group, two orders and an amount on which dry run and commit differ |
| CurrencyGreedy.LeastCountIsOptimal | currency/currency.go:65-67 | When each nominal divides the next larger one: paid if and only if some sub-multiset sums to the amount, and with the fewest coins of any |
| CurrencyComplete.CompleteIffChain | currency/currency.go:65-67 | When the two largest nominals together are still an amount: a system is answered correctly for every stock and amount if and only if each nominal divides the next larger one |
| CurrencyComplete.CompleteIffTame | currency/currency.go:65-67 | For all positive nominals, however large: a system is answered correctly for every stock and amount if and only if, of any two, the smaller divides the larger or its next multiple above the larger is no 32-bit amount |
| CurrencyComplete.TamePaysPayable | currency/currency.go:65-67 | For one amount: paid if and only if payable, when of any two nominals up to it the smaller divides the larger or its next multiple above the larger exceeds the amount |
| CurrencyGreedy.PaidIsPayable | currency/currency.go:103-133 | Soundness for every strategy: what is paid can be paid |
| CurrencyGreedy.TrapIsRefused | currency/currency.go:119-133 | For any two nominals of which the smaller does not divide the larger: a concrete stock and payable amount below their sum are refused |
| CurrencyGreedy.FiveAndTwosRefuseSix | currency/currency.go:65-67 | One 5 and three 2s: 6 is payable and refused, in every order the sort may give |
| CurrencyGreedy.GreedyIsOptimal | currency/currency.go:119-133 | Exchange argument: any payment can be turned into the greedy one without more coins |
| NominalGroup.NominalGroup.Copy | currency/currency.go:34-42 | A fresh group with equal contents |
| NominalGroup.NominalGroup.SetValid | currency/currency.go:44-49 | Exactly these nominals, none of each |
| NominalGroup.NominalGroup.Add | currency/currency.go:51-57 | Adds with 64-bit wrap, or refuses an unknown nominal and changes nothing |
| NominalGroup.NominalGroup.Clear | currency/currency.go:59-63 | Same nominals, none of each |
| NominalGroup.NominalGroup.Total | currency/currency.go:78-84 | The 32-bit loop gives the true total modulo 2^32, in any order of the map |
| NominalGroup.NominalGroup.Sub | currency/currency.go:86-90 | Subtracts nominal by nominal with 64-bit wrap, also from itself |
| NominalGroup.SubConserves | currency/currency.go:86-90 | Subtracting a contained group leaves the difference of the totals |
| NominalGroup.LessWraps | currency/currency.go:86-90 | Taking more than there are wraps modulo 2^64 |
| NominalGroup.AddConserves | currency/currency.go:51-57 | A deposit raises the total by its worth unless the count wraps |
| NominalGroup.NominalGroup.Order | currency/currency.go:137-147 | A permutation of the nominals sorted by falling key |
| NominalGroup.EveryLegalSortMayBe | currency/currency.go:137-147 | Every such permutation may come out: each of its nominals in turn is one that may be chosen next |
| NominalGroup.NominalGroup.ExpendOrdered | currency/currency.go:119-133 | Takes one coin of the first nominal that fits, or reports a short order or nothing that fits, changing nothing; for the amount 0 a short order or no coin |
| NominalGroup.GenericOrder.Reset | currency/currency.go:162-164 | The order is a legal sort of the group by the strategy's key |
| NominalGroup.StatisticalOrder.Reset | currency/currency.go:181-183 | The order is a legal sort of the statistics by count |
| NominalGroup.Combination.Reset | currency/currency.go:195-199 | Seeds the generator with the 32-bit total and resets both strategies |
| NominalGroup.Combination.ExpendOne | currency/currency.go:200-205 | Draws once, takes the coin from the strategy drawn, and leaves the other as it was |
| NominalGroup.ExpendStrategy.Reset | currency/currency.go:152-199 | Each strategy's Reset leaves a plan that is legal for the group, its seed the 32-bit total |
| NominalGroup.ExpendStrategy.ExpendOne | currency/currency.go:165-205 | Takes the coin that the plan says and advances the plan, generator draws included |
| NominalGroup.NominalGroup.ExpendLoop | currency/currency.go:103-116 | Ends as spending by the plan does: nil, not enough, or a panic, with the same coins left |
| NominalGroup.NominalGroup.Withdraw | currency/currency.go:92-101 | A dry run changes nothing; a committed success lowers the total by exactly the amount; with a decisive strategy a failure changes nothing; a sorting strategy on positive nominals never panics |
| NominalGroup.NominalGroup.Contains | currency/currency.go:65-67 | True only of payable amounts, and of all of them when the nominals are tame up to the amount, in particular when each divides the next larger one |
| Stuffing.UnstuffMarked | hardware/mdb/io_file.go:176-212 | Round trip: stuffed data and its marked last byte are read back, and the frame's end is found, whatever follows |
| Stuffing.UnstuffAfter | hardware/mdb/io_file.go:176-212 | Stuffed data is decoded and passed over, whatever follows it |
| Stuffing.FrameIsMarked | hardware/mdb/io_file.go:176-212 | Exactness: a frame that is read is the stuffing of its bytes and of no others |
| Stuffing.UnstuffFails | hardware/mdb/io_file.go:176-212 | Stuffed data that breaks off is read to its end of input; stuffed data that goes on with 0xff and a meaningless byte is read to that byte |
| Stuffing.UnstuffIsExact | hardware/mdb/io_file.go:176-212 | Every stream is a frame, stuffed data that breaks off, or stuffed data that goes wrong, as the decoder says |
| Stuffing.ExampleIsRead | hardware/mdb/io_file_test.go:117 | The stream 73 ff ff 04 ff 00 76 is read as 73 ff 04 and 76 |
| Stuffing.WireIsRead | hardware/mdb/packet.go:104-125 | A stream that starts with the wire form of a block is read as that block and its sum |
| Stuffing.WiresSplit | hardware/mdb/packet.go:104-125 | Any blocks sent one after another are split back into just those blocks |
| MdbPacket.Packet.Write | hardware/mdb/packet.go:63-80 | Read-only and oversize errors, the empty no-op, and the copy, with the whole new contents |
| MdbPacket.Packet.Wire | hardware/mdb/packet.go:104-125 | The array filled in place is the stuffed (or plain) data and its sum |
| MdbPacket.PlainIsSummed | hardware/mdb/packet.go:104-125 | The plain wire form is the data and one byte more, their true sum modulo 256 |
| FileUart.BufferReadPacket | hardware/mdb/io_file.go:176-212 | Slice at a time, for every stream and buffer: delivers exactly a frame that fits and stops just after it, or ends in exactly which error or panic; the stream counts as ended where the reader's own 4096 bytes fill without a mark |
| FileUart.AllIsSeen | hardware/mdb/io_file.go:181-183 | The reader's own buffer makes no difference to a stream of which fewer than 4096 bytes are decoded |
| FileUart.SliceFits | hardware/mdb/io_file.go:176-212 | Into a buffer of fewer than 4096 bytes the read succeeds exactly on a frame that fits |
| FileUart.ReadPacket | hardware/mdb/mock.go:69-103 | Byte at a time: the same outcome, and which error otherwise |
| FileUart.ReadersAgree | hardware/mdb/mock.go:69-103 | The two readers agree on every stream in success, bytes and what is left; and in how they fail except exactly where a stream without a whole frame runs out of room in literal bytes |
| FileUart.FrameIsRead | hardware/mdb/io_file.go:176-212 | On a frame both readers deliver data and last byte and stop just after it, or both panic for want of room |
| FileUart.FailureIsRead | hardware/mdb/mock.go:69-103 | On stuffed data without an end both fail alike if it fits; of what does not fit, literal bytes are dropped by one reader, and all else is a panic |
| FileUart.FinishSequence | hardware/mdb/io_file.go:188-210 | After 0xff: the end of the packet, a literal 0xff, or exactly which error or panic, in place |
| FileUart.Checksum | hardware/mdb/mdb.go:60-66 | The loop computes the 8-bit sum |
| FileUart.FileUart.Receive | hardware/mdb/io_file.go:155-174 | The receiving half of Tx accepts exactly the streams that start with the wire form of a block that fits, returns that block and acknowledges it unless it is empty; a bad checksum gives both values, a failed read its error |
| FileUart.BlockOutcome | hardware/mdb/io_file.go:160-171 | Of a block that fits the closing byte decides: the response, or the error with received and computed sum |
| FileUart.BrokenOutcome | hardware/mdb/io_file.go:156-159 | Of stuffed data that has no end: the reader's error |
| FileUart.Reader.ReadSlice | hardware/mdb/io_file.go:181-183 | bufio's slice through the first delimiter, or failure at the end of input or of its buffer, with what remains in each case |
| GpioMdb.GpioMdb.ReceiveLoop | cmd/iodin/src/mdb.rs:136-149 | What is gathered depends on the bytes that arrive, not on how they are cut into even reads; what is left in the buffer does |
| GpioMdb.GpioMdb.Receive | cmd/iodin/src/mdb.rs:136-167 | For the words that arrived: exactly the outcome and handshake of OutcomeIsRight, however the reads were cut, and the buffer afterwards |
| GpioMdb.GpioMdb.PutRequest | cmd/iodin/src/mdb.rs:116-124 | The request is sent with its checksum and with whatever flags the buffer still held, and the whole buffer afterwards |
| GpioMdb.GpioMdb.Tx | cmd/iodin/src/mdb.rs:105-176 | One transaction: what is sent, the outcome and handshake of OutcomeIsRight for the words that arrived, and the whole buffer that it leaves to the next one |
| GpioMdb.OutcomeIsRight | cmd/iodin/src/mdb.rs:150-176 | Data closed by its sum is the response and is acknowledged; closed by anything else it is MdbChecksum with both sums and the data, and 0xff is sent; without data 0x00, 0xff and other bytes are response, MdbNak and MdbInvalidResponse; without an end it is a timeout; and data is a response only so |
| GpioMdb.GatherIsExact | cmd/iodin/src/mdb.rs:136-149 | What is gathered is the words up to the first one with the ninth bit, and no others |
| GpioMdb.FlagMustBeOne | cmd/iodin/src/mdb.rs:139-147 | Only a flag byte of exactly 1 ends a block |
| GpioMdb.RequestIsRightIff | cmd/iodin/src/mdb.rs:116-124 | The ninth bit is on the first word only if and only if no stale flag lies under the request: the flags after the first are never written |
| GpioMdb.BlockBytesAreWords | cmd/iodin/src/mdb.rs:139-147 | A block read in one piece: its value and flag bytes are the block's words |
| GpioMdb.ReplySpoilsRequest | cmd/iodin/src/mdb.rs:136-149 | From any buffer: after a reply, in any even pieces, whose last piece had two words or more, every request with at least as many words is sent wrong |
| GpioMdb.NextRequestIsRightIff | cmd/iodin/src/mdb.rs:105-176 | Two transactions from a clean buffer, the first reply of any length and in any even pieces: the second request is sent right if and only if the piece with the end was one word, or of more words than the request and its sum |
| GpioMdb.NextRequestAfterOnePiece | cmd/iodin/src/mdb.rs:105-176 | For a reply read in one piece: right if and only if it had no data, or more bytes than the request |
| GpioMdb.GatherMatchesDecode | hardware/i2c-mdb-atmega-gate/i2c-mdb_atmega-gate/mdb.c:169-201 | Both receivers see the same data and end in every stream that the gateway does not refuse |
| GpioMdb.SameBlockIff | cmd/iodin/src/mdb.rs:136-149 | They see the same block if and only if it has at most 36 data bytes |
| GpioMdb.AgreesWithGateway | cmd/iodin/src/mdb.rs:150-167 | On blocks of at most 36 bytes outcome and handshake agree with the gateway's if and only if the block is empty or its sum is right |
| CoinPoll.CoinAcceptor.CommandPoll | hardware/mdb/coin/coin.go:225-261 | The items are those of the grammar, an exchange error gives none, and ready is signalled exactly when no item begins with 0x02 or 0x0a |
| CoinPoll.CoinAcceptor.ParseItems | hardware/mdb/coin/coin.go:243-256 | The skip-flag loop gives the items of the recursive one-or-two-byte grammar |
| CoinPoll.SkipIsWidth | hardware/mdb/coin/coin.go:363-444 | An item takes a second byte if and only if its first is 0x40 or more |
| CoinPoll.CodesAreRead | hardware/mdb/coin/coin.go:400-441 | Deposit, manual-dispense and slug codes are read back as the coin type, routing and count that a changer encodes, an unused routing with its code |
| CoinPoll.CodesMean | hardware/mdb/coin/coin.go:363-398 | The codes 0x01 to 0x0d, each with its status and reason |
| CoinPoll.OtherCodesAreFatal | hardware/mdb/coin/coin.go:442-444 | 0x00 and 0x0e to 0x1f are fatal, with the code |
| CoinPoll.StatusOfByte | hardware/mdb/coin/coin.go:363-444 | For each status exactly which first bytes lead to it |
| CoinPoll.BusyIff | hardware/mdb/coin/coin.go:257-259 | A reply says busy exactly when some item begins with 0x02 or 0x0a |
| CoinPoll.AbortsAreRequests | head/money/coin.go:84-85 | The abort events of a reply are as many as its items that begin with 0x01 |
| CoinPoll.EventsInOrder | head/money/coin.go:73-104 | The events come in the order of the items |
| CoinPoll.ItemsAreHandled | head/money/hardware.go:46-49 | No item of any changer's reply has a status that reaches the panic |
| CoinPoll.CreditRises | head/money/coin.go:92-99 | For every reply the credit's total, and the sum of the credit events, rise by exactly the nominals of the coins sent to cash box or tubes, and the group stays one of the changer's nominals |
| CoinPoll.CreditCodes | hardware/mdb/coin/coin.go:401-433 | The codes that give credit are 0x40 to 0x5f, one coin of the type in the low four bits |
| CoinPoll.CoinAcceptor.SupportedNominals | hardware/mdb/coin/coin.go:99-107 | Exactly the positive coin type credits |
| CoinPoll.CoinState.Init | head/money/coin.go:23-33 | The credit group has the changer's nominals and total 0 |
| CoinPoll.CoinState.HandleItem | head/money/coin.go:77-104 | What each item does to credit and events, and which are left to the common code |
| CoinPoll.CoinState.HandlePollResult | head/money/hardware.go:24-55 | Panics if and only if some item's status is handled by nobody; otherwise credit and events are those of all items |
| CoinPoll.CoinState.Round | head/money/coin.go:73-110 | One poll and its handling: no panic, the total rises by exactly the coins kept, the abort events are the return requests, ready is signalled as it should, and the group is ready for the next poll |
| CoinPoll.CoinState.Rounds | head/money/coin.go:73-110 | Any number of polls: the total and the credit events rise by the coins kept in all of the replies |

## Left out

- Preemption inside a C function: each interrupt and each main-loop call is one atomic step.
- Registers, syscalls, sleeps, logging and the notify pin: interrupts and bus conditions are events, the UART's readiness is an input to each command, line-error flags are an input to each received word.
- Timer intervals and timeouts: the timer interrupt may come whenever it is enabled; the Rust deadlines are the end of the reads.
- FirmwareMain.Mega.MasterCommand: a claimed length of 0 is left out, because the code then reads before and 255 bytes behind the buffer (main.c:95-101).
- FirmwareMain.Mega.CommandLoop: writes for which the code reads outside the buffer are left out: a claimed length of 0, or one that wraps the 8-bit offset while the pointer goes on (twi.c:59-65). Any other write is modelled, frames that claim one or two bytes included; what stands behind a Reset or Flash command may be anything.
- FirmwareMain.Mega.TwiStep: the same writes are left out, here and in `Admissible`.
- FirmwareMain.Mega.Handle: a poll of such a write is no event of the model.
- FirmwareMain.Mega.RunAll: the same for the polls of a run.
- The watchdog: after Reset no event does anything, after Flash only interrupts do, for ever.
- What the UART does with a byte written while its transmitter is off: it is taken never to reach the bus.
- EndToEnd.ExchangeIsDelivered: assumes no line error, no timeout and the UART ready, and starts from an idle gateway whose reply buffers are empty, whose transmitter is on and which answers its I2C address.
- I2C arbitration and bus errors beyond the clear that the interrupt makes of them.
- The formatting methods of the client's packets, and the client's reader goroutine.
- sort.Slice and map iteration are taken to give any result their documentation allows; math/rand is a function of the seed and the number of draws; the float comparison with the ratio is part of that function.
- NominalGroup.Combination.Reset: the two parts are taken to be different objects; one object used twice is not modelled.
- NominalGroup.ExpendStrategy.Reset: the same for the parts of parts.
- CurrencyComplete.CompleteIffChain: for nominals the two largest of which together exceed 2^32 the condition is another one, in CurrencyComplete.CompleteIffTame.
- CurrencyAgreement.AgreesIffNeverTies: ranges over groups of positive nominals whose true total is a 32-bit amount.
- CurrencyTies.GenericAgreesIff: combined strategies have the sufficient condition of CurrencyAgreement.DryRunAgrees only; which ties matter to them depends on the generator's draws.
- The sending half of fileUart.Tx: write9 writes only the bytes after the first of a longer request (io_file.go:54-72), and the parity switch is a system call.
- nullUart.Tx compares the wrong buffer (mock.go:55-57); only its reader is modelled.
- FileUart.BufferReadPacket: a read error is the end of the input, and so is a slice that does not fit the reader's own buffer; which error it was is not kept.
- GpioMdb.GpioMdb.PutRequest: how the waveform library treats a flag byte is not in the repository; its low bit is taken as the ninth bit.
- Odd-length serial reads, which the Rust loop would pair with stale bytes.
- CoinPoll.CreditRises: assumes that the group has the changer's nominals and that no 64-bit count is about to wrap; the 32-bit wrap of Total is in NominalGroup.NominalGroup.Total.
- The bill validator, diagnostics, coin dispensing, evend devices, the signalling helpers and the life cycle: they would only add easy members.
