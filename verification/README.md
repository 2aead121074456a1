# nrf-ethernet in Dafny

A Dafny 4.11 model of the firmware of an nRF24L01+ to Ethernet gateway and of its USB bootloader,
with proofs of what they promise. `dafny verify dfyconfig.toml` checks everything.

Components, each as the system that the code implements and then as the code itself:

- **Radio driver** (`Radio`, `RadioProofs`, `RadioTheorems`, `RadioHandling`, `RadioDriver`): the
  radio thread, the reader, the sender and the interrupt as interleaved atomic steps over two rings,
  each a mailbox of slot numbers and ten buffers. A slot is filled byte by byte outside the lock.
  Theorems hold for every sequence of steps.
- **Sensor table** (`SensorTable`, `SensorProofs`): the 32-slot table against an ideal map of
  time-stamped records. `Json`, `JsonGrammar`, `SensorJson` and `SensorFields`: its JSON text, with a
  general printer, the grammar of RFC 8259 without escapes, fractions and literals, a parser, their
  relations, and what a reader finds under the names of the fields.
- **Bootloader** (`Bits`, `Flash`, `Dfu`, `DfuProofs`, `DfuSession`, `DfuDevice`): the DFU 1.1 request
  handler with deferred effects and the boot countdown. Which downloads take effect is read off
  the event sequence alone, and a whole update session is proved to leave the image in flash.
- **Raw broadcast server** (`Rawd`, `RawdProofs`, `RawdServer`): pushers, broadcaster and acceptor
  over three connection slots and one frame cell.
- **HTTP server** (`NetStream`, `Hex`, `HttpScan`, `Httpd`, `HttpdProofs`): the 512-byte stream, the
  in-place splitting of requests, with whatever lies behind a request in memory, and the hexadecimal
  decoder.
- **Joined** (`Gateway`): from the radio through the table and the broadcaster to the clients, and
  from an HTTP request to the TX mailbox and the chip.

A component whose static data are updated in place is a class with those data. Each method is one
atomic section and its contract equates the new state with a step function of the old one; the
theorems are about that function over all runs. Fields named as history (posts, fates, logs and
the like) only record what happened.

Assumptions, none of which is visible in the code itself:

- A mailbox is a bounded FIFO. A section between chSysLock and chSysUnlock is one atomic step, and
  a blocking wait is a guard on it; this includes the sections of `nrf_irq` and `nrf_check_tx`
  that sleep and use the bus while locked.
- chMtxLock gives mutual exclusion, event flags coalesce, and each netconn_write is atomic and
  delivers its bytes.
- There is one caller of `nrf_send` and one of `nrf_recv`, as in this firmware. Initialization has
  finished before the threads run.
- A flash page is erased to 0xFF, and a half-word is written only where both bytes are 0xFF and
  the address is even and inside the flash. The page size is a parameter. A control transfer
  carries at most 2048 bytes.
- The memory behind an HTTP request has arbitrary contents and ends somewhere within half of the
  address space. Reading beyond its end is a fault, which stops the firmware. A NUL written there
  hits none of the state that is modelled elsewhere.
- What the network and the radio chip answer (connection states, status register, payload width
  and payload) is arbitrary at each step.

Where the code differs from what one would expect of it:

- The match test of `update_table` ignores the time to live, so a frame with ids (0,0) also matches
  a blank slot. `ZeroKeyCanRepeat` gives a run that puts (0,0) in two slots, and `RunRefinesIff`
  says exactly when the table is still the ideal map: no (0,0) frame may arrive while a free slot
  precedes the live (0,0) slot. After that other keys suffer too: (0,0) occupies two slots, so a
  frame can be refused with only 31 keys live, as `NonzeroKeyIsCrowdedOut` shows; `WronglyRefusedIff`
  says exactly when that happens. What the other keys keep in all runs is `OtherKeysKept`: one slot
  each, with their last accepted update and its age.
- The two scans for the parts of a request can leave it. The bound of the first is an unsigned
  difference that wraps around when less than 11 characters follow the method; the bound of the
  second is not adjusted to where the headers begin. `OverrunsIff` says exactly which requests are
  read beyond their end, among them "GET /" (`ShortRequestOverruns`) and every request without header
  lines (`HeaderlessOverruns`). Depending on what lies there, such a request faults, is refused, or
  is answered all the same (`HeaderlessIsDispatched`), always with a negative length of data
  (`OverrunLength`), so that it never sends a message (`OverrunAsksNothing`). A request that is not
  among them is not affected by what lies behind it (`SplitIsLocal`).
- The erase command of the bootloader falls through and also sets the address; `CommandPhase` and
  the session theorem cover updates that rely on it.
- An image of odd length ends in half a half-word: the loop programs the next byte too, with what
  the buffer happens to hold when the last block is first written. `SessionWritesImage` says what
  that byte is, and that all else is unchanged if and only if the length is even or that byte is
  0xFF. `OneByteSpills` is an update in which it is not.

## Model

| member | source | states |
|---|---|---|
| RadioDriver.Nrf.constructor | firmware/nrf24l01p.c:352-357 | After initialization both mailboxes and indices are at their start and every buffer is zero |
| RadioDriver.Nrf.NrfRecv | firmware/nrf24l01p.c:216-224 | The locked section of nrf_recv is the reader's step: the oldest entry leaves, and the message returned is what its slot holds |
| RadioDriver.Nrf.NrfSendStart | firmware/nrf24l01p.c:230-231 | nrf_send chooses its slot before it waits |
| RadioDriver.Nrf.NrfSendPost | firmware/nrf24l01p.c:232-235 | After the wait the chosen slot is posted, then filled, and the index advances, as one step |
| RadioDriver.Nrf.NrfKickLoop | firmware/nrf24l01p.c:337-340 | The kick after the unlock is a separate step that leaves the event pending |
| RadioDriver.Nrf.NrfExtIrq | firmware/main.c:60-63 | The chip's interrupt line leaves the event pending |
| RadioDriver.Nrf.RadioStep | firmware/nrf24l01p.c:240-332 | Each program point of the event loop, from the wait through nrf_irq to nrf_check_tx, is one step of the system |
| RadioDriver.Nrf.PostFrame | firmware/nrf24l01p.c:259 | The post without a timeout: appended if there is room, lost otherwise |
| RadioDriver.Nrf.NrfCheckTx | firmware/nrf24l01p.c:283-295 | Fetch and hand-over to nrf_tx are one locked step; nothing happens on an empty mailbox |
| RadioTheorems.RxMailboxIsConsecutive | firmware/nrf24l01p.c:247-261 | In every interleaving the RX mailbox holds the consecutive slots ending just before rx_idx (at rx_idx between post and increment), never the slot being filled, and the post without a timeout never fails |
| RadioTheorems.QueuedFramesAreIntact | firmware/nrf24l01p.c:216-261 | Every queued slot still holds what was posted in it, whatever byte of which slot is being written outside the lock |
| RadioTheorems.EveryPostHasOneFate | firmware/nrf24l01p.c:251-260 | Every post is exactly one of delivered, dropped or queued; deliveries are the delivered posts in post order; a drop happens only with nine newer posts queued and a tenth on its way |
| RadioTheorems.PostContents | firmware/nrf24l01p.c:185-204 | Post k carries the payload just read, or repeats post k-10 (zeros in the first lap) if the read failed |
| RadioTheorems.DeliveredFramesWereReceived | firmware/nrf24l01p.c:216-260 | If every read succeeds, the frames returned by nrf_recv are a subsequence of the frames the chip received |
| RadioTheorems.FreshFramesWereReceived | firmware/nrf24l01p.c:185-260 | In every run, with any failed reads, the delivered frames that were read before their post are a subsequence of the payloads read |
| RadioTheorems.SentIsPrefixOfAccepted | firmware/nrf24l01p.c:226-295 | The payloads given to nrf_tx are a prefix of the messages nrf_send accepted, and the rest wait in the mailbox unmodified and in order |
| RadioTheorems.NoMessageIsStranded | firmware/nrf24l01p.c:263-339 | When the radio thread waits, a queued message has a pending event, a sender about to kick or an outstanding transmission; TX mode means an outstanding transmission |
| RadioTheorems.OldestMessageIsSent | firmware/nrf24l01p.c:283-332 | With an event pending, 24 steps of the radio thread, however interleaved, hand over the oldest message |
| RadioHandling.InterruptWakes | firmware/nrf24l01p.c:328-339 | An interrupt wakes the waiting radio thread at its next step, in any interleaving |
| RadioHandling.FrameIsPosted | firmware/nrf24l01p.c:185-261 | If bit 6 of the status is set and the chip then offers 16 bytes on a pipe up to 5, 20 steps of the radio thread, in any interleaving, post exactly these bytes |
| RadioHandling.FailedReadRepeats | firmware/nrf24l01p.c:185-261 | If it offers no such frame, 4 steps post the content of ten posts ago again, or zeros |
| RadioHandling.NothingAnnounced | firmware/nrf24l01p.c:245-295 | If bit 6 is clear, nothing is posted until the next wait, two or three steps later |
| RadioHandling.TxReport | firmware/nrf24l01p.c:263-274 | If bit 5 is set, the transmission is no longer outstanding and the chip goes back to RX mode if nothing is queued; otherwise nothing of this happens |
| RadioHandling.ThenWaits | firmware/nrf24l01p.c:283-332 | After the look at the TX mailbox the radio thread waits, without having posted a frame |
| RadioHandling.PostsAreCaused | firmware/nrf24l01p.c:237-332 | There are never more posts than interrupts and kicks |
| RadioHandling.OutstandingInTxMode | firmware/nrf24l01p.c:206-214 | In every run the chip is in TX mode while a transmission is outstanding |
| RadioHandling.SentInTxMode | firmware/nrf24l01p.c:287-293 | A step that hands over a message leaves the chip in TX mode |
| RadioHandling.ReceivesOldest | firmware/nrf24l01p.c:216-224 | In every run nrf_recv returns the oldest post still queued, and waits iff there is none |
| RadioHandling.SendsWhenRoom | firmware/nrf24l01p.c:230-235 | In every run nrf_send posts its message iff fewer than 10 are queued, and waits otherwise |
| RadioHandling.SendBeginsAndEnds | firmware/nrf24l01p.c:226-238 | A call of nrf_send begins with its message and returns with an event pending |
| SensorTable.DataTable.constructor | firmware/data.c:208-209 | Initialization blanks every slot |
| SensorTable.DataTable.UpdateEntry | firmware/data.c:120-127 | One slot takes the frame's ids, sequence number and data with a fresh time to live |
| SensorTable.DataTable.UpdateTable | firmware/data.c:129-158 | The one-pass search updates the first slot with the frame's ids, else the first free slot, else nothing |
| SensorTable.DataTable.CleanPass | firmware/data.c:187-196 | Every live slot ages by one, and is blanked when it expires |
| SensorProofs.TableStaysSane | firmware/data.c:138-195 | In every run free slots are entirely zero, no time to live exceeds 180, and no key but (0,0) is in two live slots |
| SensorProofs.KeyKeepsSlot | firmware/data.c:144-155 | A live slot keeps its key; it becomes free only in a cleaning pass that finds its time to live at 1 |
| SensorProofs.StepRefinesIff | firmware/data.c:129-196 | One step keeps the table in agreement with the ideal map if and only if it is not a (0,0) frame with a free slot before the live (0,0) slot |
| SensorProofs.RunRefinesIff | firmware/data.c:129-196 | The table agrees with the ideal map after every prefix of a run if and only if every step is unambiguous |
| SensorProofs.NonzeroKeysRefine | firmware/data.c:129-196 | Runs without (0,0) frames agree with the ideal map |
| SensorProofs.PresentIffRecent | firmware/data.c:120-196 | A key is present iff its last accepted update was fewer than 180 passes ago, and shows that update with time to live 180 minus its age |
| SensorProofs.RefusedWhenFull | firmware/data.c:144-161 | In a table that agrees with the ideal map, a frame of any key is refused iff its key is absent and 32 keys are live |
| SensorProofs.AmbiguousDuplicates | firmware/data.c:144-155 | A (0,0) frame with a free slot before the live (0,0) slot leaves the key in two live slots |
| SensorProofs.ZeroKeyCanRepeat | firmware/data.c:144-155 | A concrete run in which (0,0) ends up in slots 0 and 1 at once |
| SensorProofs.OtherKeysKept | firmware/data.c:120-196 | In all runs, with any (0,0) frames, a key other than (0,0) is present iff its last update that the table accepted was fewer than 180 passes ago, in one slot that shows it |
| SensorProofs.NonzeroKeyIsCrowdedOut | firmware/data.c:144-161 | A run in which (0,0) takes two slots and a frame with another key is refused with at most 31 keys live, which the ideal map would accept |
| SensorProofs.FullTableKeys | firmware/data.c:138-155 | A table without a free slot holds 32 keys iff no key has two slots |
| SensorProofs.WronglyRefusedIff | firmware/data.c:138-155 | In every run a frame with another key is refused with fewer than 32 keys in the table iff its key is absent, no slot is free and (0,0) has two slots |
| SensorJson.PrintEntry | firmware/data.c:57-88 | The text of one slot is the printed object of its fields, by message type |
| SensorJson.PrintSensors | firmware/data.c:49-89 | The array holds the live slots in table order with commas in between |
| SensorJson.DataJson | firmware/data.c:34-94 | data_json prints the object with device, timestamp and sensors |
| Json.TextBack | firmware/data.c:43-91 | Every printed value, of any depth and length, parses back to itself by the grammar of RFC 8259 |
| SensorJson.JsonReadsBack | firmware/data.c:34-94 | For every table and time the output is a JSON text whose value is exactly the live slots in order with their fields and decoded readings |
| JsonGrammar.ParsedIsJson | firmware/data.c:43-91 | What the parser accepts is derived by the productions of RFC 8259, with the value it returns |
| SensorJson.OutputIsJson | firmware/data.c:34-94 | For every table and time the output is a JSON text of the live slots by those productions |
| SensorFields.HeadReadsBack | firmware/data.c:43-45 | The parsed text names the device, and the time as a signed 32-bit number |
| SensorFields.SlotReadsBack | firmware/data.c:49-89 | The parsed text has as many sensors as there are live slots, and the one at a slot's place among them has its ttl, board_id, msg_id, seq and type under these names, and no readings unless it is a power message |
| SensorFields.ReadingsReadBack | firmware/data.c:69-82 | Five 16-bit numbers laid out in a power message least significant byte first are what the parsed text gives as power1 to power4 and battery |
| DfuDevice.Bootloader.constructor | bootloader/usbdfu.c:38-45 | Power-up: idle state, empty programming record, counters at zero |
| DfuDevice.Bootloader.ControlRequest | bootloader/usbdfu.c:200-253 | Each class request changes state and programming record as the handler does, and others are refused |
| DfuDevice.Bootloader.CopyData | bootloader/usbdfu.c:217 | The data replace the beginning of the buffer and leave stale bytes behind them |
| DfuDevice.Bootloader.ProgramBlock | bootloader/usbdfu.c:179-185 | The half-word loop over a flash array |
| DfuDevice.Bootloader.CarryOut | bootloader/usbdfu.c:165-186 | The deferred effect: erase falls through to setting the address, block 1 and above are programmed |
| DfuDevice.Bootloader.GetStatusComplete | bootloader/usbdfu.c:156-198 | The completion callback acts only in dfuDNBUSY and dfuMANIFEST |
| DfuDevice.Bootloader.MainLoopRound | bootloader/usbdfu.c:292-307 | The two counters of the main loop and the entry into the application |
| DfuProofs.EffectOfEvent | bootloader/usbdfu.c:117-198 | Flash and address pointer change only when a GETSTATUS completes with an open download, and then by that download with its own block number and data |
| DfuProofs.EffectsAreUnique | bootloader/usbdfu.c:156-198 | A download takes effect at most once, and one completion carries out one download |
| DfuProofs.FlashIsReplay | bootloader/usbdfu.c:156-198 | The flash after any run is the initial flash with the completed downloads carried out in order |
| DfuProofs.OnlySixStates | bootloader/usbdfu.c:117-244 | Six states are reachable, and the error state is not |
| DfuProofs.IdleIff | bootloader/usbdfu.c:189-229 | The device is in dfuIDLE iff every DNLOAD so far was followed by an ABORT, so it does not count down during an update |
| DfuProofs.CountersFollow | bootloader/usbdfu.c:292-307 | The poll counter is the number of polls modulo 80001, and the timeout is the streak of ready samples, below 15 |
| DfuProofs.EntryIff | bootloader/usbdfu.c:192-307 | The application is entered exactly by a completed GETSTATUS after an uncancelled zero-length DNLOAD, or at the 15th sample in a row that finds every DNLOAD aborted and a valid application in the flash that the completed downloads left |
| DfuProofs.IdleDeviceBoots | bootloader/usbdfu.c:292-307 | Left alone with a valid application, the device enters it at poll 15*80001 and never earlier |
| DfuProofs.NothingAfterApp | bootloader/usbdfu.c:192-194 | Once the application is entered nothing changes any more |
| Flash.AppValidMeans | bootloader/usbdfu.c:300-301 | The masked test of the application's first word holds iff bit 29 is set and bits 17 to 27 are clear |
| DfuSession.AddressIsReadBack | bootloader/usbdfu.c:169-175 | The device decodes the little-endian address the host encodes |
| DfuSession.CommandPhase | bootloader/usbdfu.c:165-177 | Commands erase exactly the pages they name, and the last one, erase or SETADDR, sets the address |
| DfuSession.OtherCommands | bootloader/usbdfu.c:165-177 | A command of block 0 other than 0x21 and 0x41 does nothing |
| DfuSession.LoopFills | bootloader/usbdfu.c:181-185 | The loop fills the erased half-words of its place from the buffer and changes nothing else, for any length and any flash |
| DfuSession.AnyBlockFills | bootloader/usbdfu.c:178-186 | Any block from 1 on is programmed at the address plus 2048 times its number less 2, in 32-bit arithmetic |
| DfuSession.SessionWritesImage | bootloader/usbdfu.c:163-220 | Whole-session theorem: after erase and address commands and the image's blocks in any order, among any other events, the flash holds the image, behind an odd image the first byte spilled from the buffer (0xFF if none), 0xFF in the rest of the erased pages, and its old content elsewhere; so nothing else changes iff the length is even or that byte is 0xFF |
| DfuSession.HostUpdatesDevice | bootloader/usbdfu.c:156-244 | From power-up, a host that erases covering pages, sets the address and sends all blocks of an image of any length in any order leaves the image in flash, 0xFF in the rest of the pages and all else unchanged, but for the byte behind an odd image, which is given by the orders alone |
| DfuSession.HostStartsApplication | bootloader/usbdfu.c:156-244 | The complete session, ended by a zero-length DNLOAD, GETSTATUS and its completion, enters the application with the image in place |
| DfuSession.SpilledMeans | bootloader/usbdfu.c:179-185 | Once the last block of an odd image has been written, its last half-word is still erased iff nothing was spilled; otherwise the first spilled byte is final |
| DfuSession.OneByteSpills | bootloader/usbdfu.c:200-220 | An update with a one-byte image leaves the first byte of the address, which is not 0xFF, behind the image |
| DfuSession.ScriptCarriesOut | bootloader/usbdfu.c:200-244 | A host that sends each download followed by GETSTATUS and its completion gets exactly its downloads carried out, in order |
| RawdServer.Server.constructor | firmware/net/rawd.c:130-134 | All slots are empty at the start |
| RawdServer.Server.RawdPush | firmware/net/rawd.c:61-65 | The newest frame replaces the cell under the mutex |
| RawdServer.Server.RawdSignal | firmware/net/rawd.c:67 | The signal is a separate step after the unlock |
| RawdServer.Server.PushLoopPass | firmware/net/rawd.c:45-55 | A pass writes the cell to every connection found established |
| RawdServer.Server.ScanConnections | firmware/net/rawd.c:77-88 | The scan deletes stale connections, empties their slots and notes the last free slot |
| RawdServer.Server.RawdNew | firmware/net/rawd.c:70-100 | A newcomer takes the free slot, or is answered, closed and deleted |
| RawdServer.Server.RawdGreet | firmware/net/rawd.c:102 | The greeting is written after the unlock |
| RawdProofs.ConnectionsAreOwned | firmware/net/rawd.c:70-103 | In every run each connection is in exactly one slot or deleted exactly once, and slots hold distinct undeleted connections |
| RawdProofs.RefusedIffFull | firmware/net/rawd.c:77-98 | A newcomer is refused iff the scan found three established connections, and otherwise gets a slot |
| RawdProofs.NewcomerTakesLast | firmware/net/rawd.c:77-98 | The newcomer gets the last of the slots that are empty or found stale |
| RawdProofs.NewcomerIsGreeted | firmware/net/rawd.c:98-102 | The greeting is the next thing written to an admitted connection by the acceptor, which then accepts again |
| RawdProofs.NoneOverwritten | firmware/net/rawd.c:78-98 | A connection leaves its slot only by being found stale and deleted |
| RawdProofs.NoWriteAfterDelete | firmware/net/rawd.c:46-102 | Nothing is written to a deleted connection |
| RawdProofs.SamePassSameFrame | firmware/net/rawd.c:45-55 | Clients written in one pass get the same frame, the newest stored before the pass |
| RawdProofs.FramesInPushOrder | firmware/net/rawd.c:42-68 | A client's frames are in push order |
| RawdProofs.PassReachesAll | firmware/net/rawd.c:46-54 | A pass writes the newest frame to exactly the slots found established |
| RawdProofs.NoLostWakeUp | firmware/net/rawd.c:42-68 | When the broadcaster waits, an unbroadcast newest frame has a pending event or a pusher between unlock and signal |
| RawdProofs.NewestIsBroadcast | firmware/net/rawd.c:42-68 | With an event pending, two broadcaster steps, however interleaved, make a pass no older than the newest frame |
| RawdProofs.NoIdlePasses | firmware/net/rawd.c:42-67 | There are never more passes than signals: a wake-up takes the pending event away |
| RawdProofs.StreamIsAligned | firmware/net/rawd.c:33-34 | Every client's byte stream has 16 bytes per write, greetings included |
| RawdProofs.RecordOfStream | firmware/net/rawd.c:52-102 | The i-th 16-byte record of a stream is the i-th write |
| RawdProofs.AnswersSpelledOut | firmware/net/rawd.c:33-34 | The two answers are four zero bytes and their 12 characters |
| NetStream.Net.Put | firmware/net/httpd.c:39-51 | One character into the buffer, with a write and a reset when it is full |
| NetStream.Net.Finalize | firmware/net/httpd.c:53-57 | The rest of the buffer is written if there is any |
| NetStream.NothingLost | firmware/net/httpd.c:39-57 | Writes and buffer together spell what was put, from any starting point |
| NetStream.StreamRefinesConcatenation | firmware/net/httpd.c:39-268 | For any text the writes join to it, in floor(n/512) full chunks and at most one shorter non-empty one |
| Hex.DecodedIffSpells | firmware/net/httpd.c:109-148 | A body decodes to a message iff it is its 32 hex digits in upper, lower or mixed case; it is rejected iff the length is not 32 or a digit is invalid |
| Hex.Decode | firmware/net/httpd.c:139-148 | The length test and the decoding loop, in place; nothing is read unless the length is 32 |
| HttpScan.ScanLoop | firmware/net/httpd.c:225-247 | The two scanning loops, over all memory that can be read |
| Httpd.CutHeaders | firmware/net/httpd.c:234-251 | The second scan and cut, in place, wherever it ends: the memory afterwards, and refusal, fault, or the pointers and the length |
| Httpd.SplitInPlace | firmware/net/httpd.c:211-251 | Both scans and cuts in place, for any request and anything behind it: the memory afterwards, and refusal, fault, or the pointers and the length |
| Httpd.Split | firmware/net/httpd.c:225-251 | Whenever a handler is called, the length of the data is the signed distance from the data pointer to the end of the request, in spite of the unsigned and 16-bit arithmetic |
| HttpScan.CompareText | firmware/net/httpd.c:255-257 | strcmp of a path with a URL that ends in a NUL or is long enough does not leave the memory, and finds equality iff they are equal as strings |
| Httpd.FindHandler | firmware/net/httpd.c:255-257 | The first path equal to the URL |
| Httpd.Handle | firmware/net/httpd.c:259-268 | The answer goes through the buffered stream, and a message is sent only by /sendraw |
| Httpd.HttpdProcess | firmware/net/httpd.c:191-276 | For any request and anything behind it: the memory afterwards, whether a read faults, the message sent, and the answer unless it faults |
| HttpdProofs.SplitIff | firmware/net/httpd.c:211-251 | Whatever lies behind a request, a handler is given certain parts, with a length that is not negative, iff the request is the well-formed one made of them, with each scan target at its first place |
| HttpdProofs.RequestSpelledOut | firmware/net/httpd.c:24-28 | The well-formed request is spelled out character by character, as are the permitted characters |
| HttpdProofs.RequestRoundTrip | firmware/net/httpd.c:211-251 | For a printable URL without spaces and headers that end at the first empty line the scans return exactly url, hdr and body, whatever lies behind the request |
| HttpdProofs.OverrunsIff | firmware/net/httpd.c:224-247 | The scans leave a request iff it has a method and then: less than 11 characters, all printable or a version cut short; or only printable characters and no version before the last 11; or a version with permitted characters and no break behind it |
| HttpdProofs.SplitIsLocal | firmware/net/httpd.c:211-251 | Otherwise what lies behind the request has no influence and is left alone |
| HttpdProofs.RefusedIff | firmware/net/httpd.c:212-243 | And then the request is refused iff it is not well-formed |
| HttpdProofs.ShortRequestOverruns | firmware/net/httpd.c:225 | A method and less than 11 printable characters, such as "GET /", make the first scan leave the request |
| HttpdProofs.HeaderlessOverruns | firmware/net/httpd.c:235-239 | Every request without header lines makes the second scan leave the request |
| HttpdProofs.HeaderlessIsDispatched | firmware/net/httpd.c:239-268 | If the memory behind it goes on with a line break, it is dispatched all the same, with length -2 |
| HttpdProofs.NoBreakIsDispatched | firmware/net/httpd.c:239-268 | If only permitted characters and no break follow up to the bound of the second scan, the request is dispatched, with the data where the scan gave up |
| HttpdProofs.NoVersionGoesOn | firmware/net/httpd.c:225-268 | If no version is found up to the bound of the first scan, the headers are looked for behind the request, and a break there makes it dispatched |
| HttpdProofs.OverrunLength | firmware/net/httpd.c:224-251 | Every request that the scans leave and that is dispatched all the same has a negative length of data |
| Gateway.FramesAreConveyed | firmware/data.c:160-173 | In every interleaving of all threads the table and the broadcaster are given what nrf_recv returned, in order, but for the frame in hand |
| Gateway.PartsAreRuns | firmware/data.c:160-173 | In every run of the joined system the radio system and the broadcast server make runs of their own, so all their theorems hold of it |
| Gateway.FramesGetThrough | firmware/data.c:166-170 | With a frame queued, four steps of data_rx, in any interleaving of all threads, bring one more frame to the table and the broadcaster |
| Gateway.TablesAge | firmware/data.c:182-199 | The table ages by exactly the passes of the cleaning thread |
| Gateway.NewestIsOut | firmware/net/rawd.c:61-67 | While the broadcaster waits and data_rx is not about to signal, the newest frame has been broadcast or an event is pending |
| Gateway.ClientsSeePostedFrames | firmware/data.c:166-170 | Every frame written to a client is a whole frame the radio posted and delivered |
| Gateway.TableShowsPostedFrames | firmware/data.c:123-170 | Every live slot shows bytes 0, 1, 3 and 4 to 15 of a frame the radio posted and delivered as board, message, sequence number and data, and unless its key is (0,0) the latest with that key that the table was given |
| Gateway.SendrawIff | firmware/net/httpd.c:130-159 | Whatever lies behind it, a well-formed request to /sendraw sends a message iff its body spells it, and none iff the body is not 32 hex digits |
| Gateway.SendrawAnswer | firmware/net/httpd.c:136-158 | The answer to a well-formed request to /sendraw ends in OK iff its body is 32 hex digits, which is when a message is sent, and in ERR otherwise |
| Gateway.PageAnswer | firmware/net/httpd.c:181-264 | Any other path is answered with its page, and an unknown one with the 404 page |
| Gateway.AsksIff | firmware/net/httpd.c:130-257 | Any request, with anything behind it, makes the server send a message iff it is a well-formed request to /sendraw whose body spells that message; in particular none whose scan leaves it |
| Gateway.OverrunAsksNothing | firmware/net/httpd.c:139-140 | A request that the scans leave never sends a message, whatever lies behind it |
| Gateway.RequestEnqueuesOnce | firmware/net/httpd.c:139-150 | In any interleaving of all threads, one request, with anything behind it, adds exactly the message it asks for, or nothing, to the messages accepted for transmission |
| Gateway.RequestsAreTransmitted | firmware/nrf24l01p.c:226-295 | Over any run of the joined system, what nrf_tx is given is a prefix of the messages the HTTP requests asked for, and the rest are in the mailbox or about to be posted, in order |
| Gateway.AskedIsSent | firmware/nrf24l01p.c:226-332 | With a message queued and an event pending, 24 steps of the radio thread, in any interleaving of all threads, hand the oldest unsent message that a request asked for to nrf_tx, unless the firmware is stopped |
| Gateway.NothingHalts | firmware/net/httpd.c:224-251 | As long as no request makes the scans leave it, no run of the joined system faults |
| Gateway.FaultHalts | firmware/net/httpd.c:224-251 | A request on which a read faults stops the firmware for good |
| Gateway.JsonAnswerReadsBack | firmware/net/httpd.c:161-167 | In every run of the joined system, the answer to a well-formed request for /json, with anything behind it, is its header and a JSON text that reads back as the live slots of the table |

## Left out

- SPI transfers, GPIO, delays, LEDs, register programming and clock set-up: hardware effects. Of the radio chip only its mode and its answers are kept; its internal FIFOs and the clearing of status bits are not part of this model.
- Kernel, lwIP and libopencm3 internals: replaced by the assumptions above.
- `data_dump`, the HTML pages and the 404 page: straight-line output, passed to the model as text parameters.
- The bytes of GETSTATUS and GETSTATE replies: straight-line packing.
- Errors from `netconn_recv` and `netconn_accept`, and writes that fail: error paths of code that is not shown.
- `firmware/usb_device.c`, `firmware/console.c`, `firmware/blink.c`, configuration headers, linker scripts: tables and wrappers.
- JSON escapes, fractions, exponents and the literals true, false and null: `data_json` never prints them, and the parser accepts none of them.
- RadioTheorems.OldestMessageIsSent: counts the radio thread's own steps; that the scheduler grants them is not modelled.
