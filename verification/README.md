# Models of the set-top box drivers

These files model the stateful algorithms of a collection of Linux drivers for set-top boxes and prove what
the drivers rely on. Hardware and callers are an environment that obeys a few stated rules; every order of
the modelled steps that the rules leave open is covered. Where an interrupt can come in the middle of a call
and matters, the call is split into steps; "Left out" names the calls that are single steps.

| part | files | the driver code |
|---|---|---|
| transport stream | `pti_packets`, `pti_ring`, `pti_queue`, `pti_inject`, `pti_pipeline` | a timer polls a ring of 194 byte packets that a DMA fills, and queues spans of packets; an injector thread sorts them by tag and delivers them in batches of at most 20 |
| PID slots | `pti_slots` | 32 slots over a PID table that the firmware reads while the driver changes it |
| Answer to Reset | `atr` | parser and printer for the chained interface bytes of section 8.2 of ISO/IEC 7816-3:2006 |
| CEC | `cec_worker`, `cec_ring` | interrupt-driven sender with retries, claiming of a logical address, and the byte ring towards user space |
| CEC by waveform | `cec_wave`, `cec_samples`, `cec_pin` | a message turned into samples of a line, which are stored beside the interrupt that plays them |
| smart card line | `sci_table`, `sci_uart`, `sci_sent`, `sci_plain`, `sci_slot` | write, the steps of a read and the interrupt handler around a 16 byte FIFO, on a line that echoes everything |
| compressed swap | `ramzswap`, `ramzswap_race` | a table of pages in heap blocks, compressed or not, and what two writes to one page do to it |
| clocks | `calibration`, `pll_dividers`, `card_clock` | loop calibration, search and register fields of PLL dividers, card clock and baud rate |

`bytes` and `words` hold what they share. Code that changes state step by step is a class whose fields are those of the
driver, or a method with its loop; each method is proved against a function of the old state, and the laws are
lemmas about those functions and about whole runs of them. Most classes carry a ghost field with the abstract
state, tied to the real fields by a predicate `Valid` or `Mirrors`. `Valid` holds after the constructor and after
every operation, so what it says holds over every run of calls; where an operation can end it, its contract says
when. What the laws speak of is tied to bytes and numbers too: each format has a lemma that gives it as a sequence of
bytes or as a sum of its fields, and the methods say what they leave in the fields of the driver.

The main results are `PtiRing.RunQueuesStreamInOrder`, `PtiQueue.TokensCoverDistance`,
`PtiPipeline.DeliveredInOrder`, `PtiPipeline.DeliveredAsSent`, the contracts of `PtiSlots.SlotTable`,
`Atr.ParsedExactlyWhenPrinted`, `CecWorker.SenderIsCorrect`, `CecWorker.ClaimTakesFirstFree`,
`CecWorker.ClaimFailsExactlyWhen`, `CecRing.FramesArriveInOrder`, `SciUart.LineIsKept`,
`SciPlain.TransmitterGetsWrites`, `SciUart.LosesExactlyWhenStoredBetween`, `SciSent.CardGetsAllExactlyWhen`,
`Ramzswap.DiskIsAnArrayOfPages`, `Ramzswap.ReadsWhatWasWritten`, `RamzswapRace.TwoWritesToOnePage`,
`CecPin.ListenerAtThePin`, `CecPin.HeardForAllArrivals`, `Calibration.CalcBogomips` and
`PllDividers.CheckThenWrite`.

## Where the code does less than its design

With the code modelled as it is, each of these has its exact condition and, where the condition does not show
one by itself, an instance.

- `smartcard/sci_drv.c:2146-2149` compares the two positions of the receive buffer and then sets them back, with
  interrupts enabled. Bytes of the answer are lost exactly when an interrupt stores them between the comparison
  that found the positions equal and the reset (`SciUart.LosesExactlyWhenStoredBetween`; `SciUart.AByteIsLost` is
  a run that loses one). Echoes stay out of what is read, and the order stays, in every interleaving.
- `smartcard/sci_drv.c:2175` waits until the write before is queued, not until it is sent, and then resets the
  transmitter. When all is queued and sent, the card has got what was written exactly when no write began while
  bytes of the one before were still in the transmitter (`SciSent.CardGetsAllExactlyWhen`;
  `SciSent.AByteIsNeverSent` is a run of two writes of which the card gets one).
- `smartcard/sci_drv.c:951` stores without a bound, and what follows the buffer are the slot's own fields
  (`smartcard/sci.h:380-383`). A store leaves the buffer exactly when more than 1024 echoes and bytes of answer
  have come since it was cleared (`SciUart.StoreLeavesExactlyWhen`); a write of 1024 bytes and one byte of answer
  do that (`SciUart.AFullWriteOverflows`).
- `smartcard/sci_drv.c:702-740` stores 16 values after an overrun, whatever the receiver holds. A reader is offered
  values of the empty register exactly when it held fewer than 16 and the read position lies before the new end
  (`SciUart.RedReadOffersNothingExactlyWhen`).
- `smartcard/sci_drv.c:2139-2142` hands out 1024 bytes to a reader who asks for more than that. All of them were
  received exactly when that many had come (`SciUart.ReadsReceivedExactlyWhen`; `SciUart.AByteAndMemory` is a run
  in which one had).
- `cec/cec_dev.c:85` adds a byte count to a pointer to messages. A record that is split at the end of the ring is
  stored right, whatever the memory behind the message holds, exactly when none of its bytes fits before the end
  (`CecRing.PutAppendsExactlyWhen`; `CecRing.AStandbyIsSpoiled` is an instance). The run theorem holds for a
  pointer that steps by bytes without this condition, and for the code's pointer with it.
- `cec/cec_dev.c:35-36` reads the end position twice. The size it computes is right exactly when the end has not
  wrapped in between (`CecRing.SizeIsRightExactlyWhen`); otherwise it is more than four thousand million
  (`CecRing.AStandbyTearsTheSize` is an instance). The run theorem holds up to there.
- `smartcard/atr.c:150` tests the number of groups before it counts the next one. An answer makes the parser use
  a row its table does not have exactly when it holds an eighth group (`Atr.OverrunsExactlyWhenEighthGroup`;
  `Atr.EightGroupsAnnounced` is an instance of ten bytes).
- `pti/pti_main.c:1095-1143` leaves a session with two sources and another one with none exactly when the source
  that the session has to give up in exchange belongs to no registered demultiplexer
  (`PtiInject.SwitchedIsPermutation`; `PtiInject.TwoSourcesForOneSession` is an instance).
- `cpu_frequ/cpu_frequ.c:335-378` is precise to a 256th exactly for ticks of more than 4096 and at most 2^31 loops
  (`Calibration.CalcBogomips`), and its frequency formula exact in Hz exactly up to 4294 MHz
  (`PllDividers.FrequencyAsChecked`; `PllDividers.FrequencyThatWraps` shows 4320 MHz).
- `cpu_frequ/cpu_frequ.c:742` and its like refuse dividers below 0 and above 255, which a byte never is. The
  divider 0 is written to the register, and reading the frequency then divides by zero, exactly for this divider
  (`PllDividers.Pll.WritePll0`, `PllDividers.Pll.WritePll1`); the search never gives it
  (`PllDividers.CheckThenWrite`).
- `smartcard/sci_params.c:315-324` is close to the exact ratio exactly for rates below 4096000
  (`CardClock.Mode1IsCloseExactlyWhen`; at 4096000 the value is 0, `CardClock.TheFirstRateThatWraps`).
- `cec/cec_worker.c:241-249` gives a ping up after four transient errors, and the claim with it. A claim ends short
  of 15 without an address exactly when a ping for another address has met four
  (`CecWorker.ClaimFailsExactlyWhen`; `CecWorker.FourErrorsEndTheClaim` gives such a run, whatever is free). With at
  most three on each ping it ends at the first free candidate, or at 15 (`CecWorker.ThreeErrorsAreSurvived`).
- `compcache/ramzswap.c:160-166` frees the old block before it takes the lock. A write has four parts: the flag
  is tested, the block freed, the flags cleared, and the rest done under the lock. Of two writes to one page, in any
  order of their parts (`RamzswapRace.TwoWritesToOnePage`): a block is freed twice exactly when there was one, both
  tested the flag before either cleared it, and the second free did not come only after the other write was through
  with a compression that succeeded; a block is lost, and exit does not free it (`RamzswapRace.ExitLeavesTheLost`),
  exactly when the first to finish succeeded, the other one had tested the flag by then, and did not still have to
  free what it had found; the page is read wrongly exactly when both cleared the flags before the first one
  finished, that one stored its page uncompressed, and the last one a compressed one. The run theorem allows one
  request at a time for each page, and any interleaving of requests for different pages.
- `cec_adb_box/cec.c:82-101` takes a buffer without samples for an idle port. Between the last sample and the
  interrupt that turns the port off, that interrupt is still to come (`CecPin.AfterTheLastSample`), and may come while the next samples are stored
  and played from. Whatever the arrivals, the message is heard exactly when the port's interrupts were off
  (`CecPin.HeardForAllArrivals`; with one interrupt behind the first sample nobody hears any message,
  `CecPin.AnInterruptBetween`). If they were on, it is heard too when none comes from the first sample stored to the
  last one (`CecPin.HeardUnlessBetween`).

## Model

| member | source | states |
|---|---|---|
| PtiRing.SpanHoldsStream | pti/pti_main.c:137-147 | a span that starts in the ring slot of packet r holds exactly the stream's bytes from packet r on, as long as the hardware is at most one ring ahead |
| PtiRing.ItemsHoldStream | pti/pti_main.c:631-651 | the bytes that a list of consecutive work items addresses are one contiguous piece of the stream |
| PtiRing.RingStepKeepsInv | pti/pti_main.c:559-660 | DMA byte, acknowledgement, poll and restart each keep: the ring holds the youngest bytes, and the items queued denote packets 0, 1, .. without a gap |
| PtiRing.RunQueuesStreamInOrder | pti/pti_main.c:559-660 | over every run, the items read in order denote consecutive packet numbers, all spans lie in the buffer, and the bytes they addressed are the beginning of the stream: no packet is skipped, repeated or reordered |
| PtiRing.AckThenPollCatchesUp | pti/pti_main.c:616-629 | a poll that finds pread unacknowledged changes nothing, and the next one after the acknowledgement hands on everything complete by then |
| PtiRing.PointersShowSpans | pti/pti_main.c:600-651 | the pointer arithmetic, with and without a wrap, gives the number of new packets and spans that cover exactly them |
| PtiRing.AlignedWritePointer | pti/pti_main.c:565-568 | rounding the write pointer down gives the slot of the first packet that is not complete |
| PtiRing.ReadPointerBelowTop | pti/pti_main.c:595-599 | the read pointer never comes near the top, so the test for it never fires |
| PtiRing.DmaPoller.constructor | pti/pti_main.c:220-234 | the ring starts empty at its base |
| PtiRing.DmaPoller.Enqueue | pti/pti_main.c:635-638 | one entry is pushed and one token released |
| PtiRing.DmaPoller.NotifyInjector | pti/pti_main.c:631-651 | the queue grows by exactly the spans of the new packets, split where they wrap |
| PtiRing.DmaPoller.PacketsWaiting | pti/pti_main.c:600-611 | the count is that of the packets complete and not handed on, and the flag tells whether they wrap |
| PtiRing.DmaPoller.Poll | pti/pti_main.c:559-660 | the whole effect of a poll on queue, pread, read register and error count: nothing is queued while pread is unacknowledged, everything complete otherwise, and a discard restarts the numbering |
| PtiQueue.StepKeepsLaps | pti/pti_main.c:351-373 | tokens are wasted only on a queue that holds a multiple of 400 entries, and never more than those laps account for |
| PtiQueue.StepKeepsInv | pti/pti_main.c:351-373 | every step of timer and injector keeps the accounting of tokens, indices and entries, overflow or not |
| PtiQueue.TokensCoverDistance | pti/pti_main.c:351-369 | in every interleaving, tokens plus the one in use are at least (writeIndex - readIndex) mod 400 |
| PtiQueue.CopyTakes | pti/pti_main.c:371-373 | exactly which entry ever pushed the injector copies, also after an overflow; it is the next one exactly while at most 400 are outstanding |
| PtiQueue.NoOverflowMeansFifo | pti/pti_main.c:371-373 | without overflow every entry is taken once and in order |
| PtiQueue.NoOverflowMeansNoWaste | pti/pti_main.c:543-544 | below 400 outstanding entries tokens and entries correspond, and the injector sleeps only when nothing is queued |
| PtiInject.PayloadsAppend | pti/pti_main.c:409-420 | the payloads of a tag among packets of two spans are those of the first and those of the second |
| PtiInject.TagIsRead | pti/pti_main.c:420 | of a first byte 64 h + 4 t + l, with h and l below 4 and t below 16, the tag is t |
| PtiInject.PayloadsAreSent | pti/pti_main.c:409-420 | of packets assembled from a first byte with the tag, five more of header and 188 of payload, the payloads of a tag are those that were sent under it, in order |
| PtiInject.RightIsUnique | pti/pti_main.c:508-541 | given payloads can be delivered in only one way: full batches of 20, then one of 1 to 20 |
| PtiInject.StoreExtends | pti/pti_main.c:501-502 | storing a payload extends what waits for its tag and leaves the other tags' buffers alone |
| PtiInject.TakeKeepsSorted | pti/pti_main.c:420-508 | what was delivered and what waits are the tag's payloads so far, after a packet of a registered tag |
| PtiInject.FlushKeepsSorted | pti/pti_main.c:509-520 | and after a full buffer is handed over |
| PtiInject.FlushNothing | pti/pti_main.c:524-540 | a tag without a remainder has had all its payloads |
| PtiInject.Injector.StorePacket | pti/pti_main.c:501-502 | the payload without its header goes behind what waits for the tag |
| PtiInject.Injector.Deliver | pti/pti_main.c:512-517 | the demultiplexer gets the batch that waits for the tag, with its number of packets |
| PtiInject.Injector.SortPackets | pti/pti_main.c:412-523 | after the loop over the packets, delivered batches are full and, with what waits, are each tag's payloads in order |
| PtiInject.Injector.FlushRemainders | pti/pti_main.c:524-541 | after the loop over the tags, every registered tag has had exactly its payloads |
| PtiInject.Injector.SortItem | pti/pti_main.c:397-541 | for every entry and tag, the demultiplexer gets the entry's packets with that tag, in order, without headers, in batches of 1 to 20; an unregistered tag gets none; said of assembled packets, it gets the payloads sent under its tag, and every call goes to the demultiplexer that the tag is assigned to |
| PtiInject.SwitchedIsPermutation | pti/pti_main.c:1095-1143 | set_source keeps the assignment of sources one to one exactly when the session reads the source already or the source it gives up is registered |
| PtiInject.TwoSourcesForOneSession | pti/pti_main.c:1108-1133 | a registered session asks for the source of one that is not, then for that of another one, and has two in the end while that one has none |
| PtiInject.SwitchAllIsPermutation | pti/pti_main.c:1095-1143 | with all demultiplexers registered, any run of set_source keeps demux_tag a permutation |
| PtiInject.Injector.SetSource | pti/pti_main.c:1108-1133 | the session gets the source, and whoever had it gets the last registered one of the session; all other sources stay where they were |
| PtiInject.SessionGets | pti/pti_main.c:422-424 | of the calls in order, those for a source go to the session it is assigned to; a registered session with this source alone gets exactly the payloads sent under it |
| PtiInject.Injector.SwitchThenSort | pti/pti_main.c:1108-1133 | after set_source, an entry's packets of the source go to the session, and nothing else does where no other source is assigned to it too, as with all registered and one to one |
| PtiPipeline.MoveKeeps | pti/pti_main.c:322-660 | every step of DMA, firmware, timer and injector keeps the whole pipeline consistent |
| PtiPipeline.EntryIsNext | pti/pti_main.c:371-373 | the entry at hand addresses exactly the packets that follow those delivered |
| PtiPipeline.DeliveredInOrder | pti/pti_main.c:322-660 | in every run, each demultiplexer has got exactly its tag's packets among the first ones of the stream, whole, once each and in order |
| PtiPipeline.DeliveredAsSent | pti/pti_main.c:322-660 | the same said of the packets as the merger sent them: each demultiplexer has got the payloads of those whose header carries its tag |
| PtiPipeline.QuietMeansAllDelivered | pti/pti_main.c:322-660 | when the injector is through with the queue, every packet that the polls handed on has been delivered to its demultiplexer |
| PtiSlots.WrittenChangesOneCell | pti/pti_main.c:160-174 | the 32-bit read-modify-write changes the addressed 16-bit cell and no other |
| PtiSlots.CellInBytes | pti/pti_main.c:160-174 | a cell is the two bytes at its byte address, the lower one first |
| PtiSlots.VisibleInBytes | pti/pti_main.c:1053-1060 | a PID is visible exactly when it stands at 32826 + 2 i in the memory for an i below the 16-bit number at 32810 |
| PtiSlots.SetKeepsExactlyWhenFree | pti/pti_main.c:1032-1073 | entering a new PID for a slot in use keeps slots and table one to one exactly when the slot has no table index |
| PtiSlots.RoomForOneMore | pti/pti_main.c:1053-1060 | a slot without an index leaves room in the table, so num_pids never exceeds 32 |
| PtiSlots.ClearKeeps | pti/pti_main.c:985-1000 | deleting by swap with the last keeps the correspondence, and only the cleared slot loses its PID |
| PtiSlots.EntryThenLength | pti/pti_main.c:1058-1060 | of the two writes of set_pid the first shows the firmware the old PIDs and the second the new ones |
| PtiSlots.SwapThenLength | pti/pti_main.c:985-988 | each of the two writes of clear_pid shows the old PIDs or the new ones |
| PtiSlots.SwapShowsNewSet | pti/pti_main.c:985-988 | after the swap the table already shows the new set, unless the last entry is the one cleared |
| PtiSlots.ScanBesideClear | pti/pti_main.c:985-988 | a firmware scan that runs beside the swap, entry by entry, misses no PID that stays and sees none that was not there |
| PtiSlots.SlotTable.constructor | pti/pti_main.c:903-914 | 32 slots, none in use, and an empty table |
| PtiSlots.SlotTable.PtiWrite | pti/pti_main.c:160-174 | the cell is written and all others stay |
| PtiSlots.SlotTable.GetNewSlotHandle | pti/pti_main.c:1075-1092 | the first slot not in use, or -1 exactly when all are; PIDs stay |
| PtiSlots.SlotTable.SetPid | pti/pti_main.c:1032-1073 | succeeds exactly for a slot in use and a PID not collected; the map from slots to PIDs and the visible set grow by it, and every single write shows the old or the new set |
| PtiSlots.SlotTable.ClearPid | pti/pti_main.c:965-1003 | succeeds exactly for a slot that has a PID, takes it out of map and visible set, and every single write shows the old or the new set |
| PtiSlots.SlotTable.SwapOut | pti/pti_main.c:985-988 | the table loses the entry to a swap with the last, and each of the two writes shows the old or the new set |
| PtiSlots.SlotTable.MoveIndex | pti/pti_main.c:990-1000 | the slot of the moved entry takes over the index, the cleared one loses its own |
| PtiSlots.SlotTable.Free | pti/pti_main.c:1005-1020 | the slot is free and its PID gone, all others stay |
| Atr.CountTable | smartcard/atr.c:40 | the count table equals the number of presence bits, so it equals the number of bytes read for a group |
| Atr.PresenceBits | smartcard/atr.c:110-160 | 16 a + 32 b + 64 c + 128 d + k, with k below 16, announces TA, TB, TC and TD exactly where a, b, c and d are 1 |
| Atr.WellFormedInBytes | smartcard/atr.c:72-201 | well-formed, in numbers: 1 to 7 groups; the upper half of T0 and of each TD is 1 TA + 2 TB + 4 TC + 8 TD of the next group, and the last group has no TD; the lower half of T0 counts the historical bytes; a check byte is there exactly when the last TD names a protocol other than 0; alone, TA1 does not name the rates 7, 8, 14, 15 and TB1 is at most 0x80 |
| Atr.GroupInOrder | smartcard/atr.c:110-160 | the bytes of a group come in the order TA, TB, TC, TD |
| Atr.OneInterfaceByte | smartcard/atr.c:110-120 | 3B 10 11 is an answer with TA1 = 11 and nothing else |
| Atr.ThreeGroups | smartcard/atr.c:72-201 | an answer of twelve bytes with three groups, two historical bytes and a check byte, and its record |
| Atr.GroupsPrinted | smartcard/atr.c:103-161 | the groups read from bytes print to those bytes, and each is announced by the one before |
| Atr.GroupsParsed | smartcard/atr.c:103-161 | printed groups that announce one another are read back, whatever follows |
| Atr.ParsedExactlyWhenPrinted | smartcard/atr.c:72-201 | the parser yields a record exactly when it is well formed and the bytes, in the card's convention, begin with its printed form |
| Atr.RoundTrip | smartcard/atr.c:72-201 | a well-formed record sent in either convention is read back |
| Atr.PrintIsInjective | smartcard/atr.c:448-484 | records that print alike are the same |
| Atr.PrintedLength | smartcard/atr.c:163-181 | the printed record is the part of the input that the pointer has passed |
| Atr.OverrunsExactlyWhenEighthGroup | smartcard/atr.c:150-154 | the table of groups is left exactly by bytes that hold an eighth group |
| Atr.EightGroupsAnnounced | smartcard/atr.c:150-154 | ten bytes are enough for that |
| Atr.InnerGroupsNameNext | smartcard/atr.c:143-155 | every group but the last has a TD byte |
| Atr.Answer.Convert | smartcard/atr.c:82-93 | the bytes in the card's convention, exactly as many as given |
| Atr.Answer.ReadRow | smartcard/atr.c:110-160 | a row holds the group at the pointer, and the other rows stay |
| Atr.Answer.ReadChain | smartcard/atr.c:103-163 | the rows hold the chain of groups, or the status says why not; the check byte is due exactly when the last TD names another protocol than T=0 |
| Atr.Answer.CheckFirst | smartcard/atr.c:182-199 | the checks on TA1 and TB1 of an answer with one group |
| Atr.Answer.ReadRest | smartcard/atr.c:164-180 | historical bytes and check byte, or malformed when they do not fit |
| Atr.Answer.InitFromArray | smartcard/atr.c:72-201 | the structure holds the record the bytes stand for and its printed length, or the status says why not; every read stays below the given length |
| Atr.Answer.GetRaw | smartcard/atr.c:448-484 | the record that is held is printed |
| Atr.Answer.GetInterfaceByte | smartcard/atr.c:249-264 | the byte of that group and character, or not found |
| Atr.Answer.GetProtocolType | smartcard/atr.c:232-247 | the protocol that the TD byte before names; the last is not T=0 exactly when there is a check byte |
| CecWorker.StepKeepsInv | cec/cec_worker.c:70-117 | every step keeps: what was written is the beginning of the addressed message, and starts and retries add up |
| CecWorker.SenderIsCorrect | cec/cec_worker.c:203-298 | for every message and every interrupt sequence of a truthful controller: the bytes written since the start are a beginning of what goes out and all of it at its end; what goes out is the own address before the receiver's in the header, and behind it the bytes that were given last, or a ping while claiming; a message is started at most 1 + 3 times |
| CecWorker.TheTableIsGood | cec/cec_opcodes.c:56-67 | the candidate table ends with the unregistered address for every device type, and has it nowhere else |
| CecWorker.CandidatesByType | cec/cec_opcodes.c:56-67 | a playback device (4) may claim 4, 8, 11, a set-top box (3) 3, 6, 7, a recorder (1) 1, 2, in this order, and then 15; all others 15 alone |
| CecWorker.CandidatesNext | cec/cec_opcodes.c:859-865 | the next address taken is the head of the candidates that are left; it is the unregistered one exactly at the end of the table |
| CecWorker.ClaimStep | cec/cec_opcodes.c:789-799 | while only pings are sent, every step keeps: the candidates before the present one are occupied, and a claim that succeeded is not |
| CecWorker.ClaimTakesFirstFree | cec/cec_opcodes.c:853-873 | for any occupied addresses and transient errors: a claim that succeeds takes the first free candidate in table order; one that ends otherwise stands at 15 or has used up its retries; the pings are bounded by the matching entries |
| CecWorker.ClaimFailsExactlyWhen | cec/cec_worker.c:219-249 | over the events alone, whatever is occupied: a claim at rest succeeded exactly when its last ping was not answered, and it has failed short of 15 exactly when a ping for another address has met four transient errors |
| CecWorker.ThreeErrorsAreSurvived | cec/cec_worker.c:219-249 | with at most three transient errors on each ping, a claim at rest stands at the first free candidate, without success only where that is 15 |
| CecWorker.UnregisteredIsLast | cec/cec_opcodes.c:56-67 | among the candidates of any device type, 15 is the last and no other |
| CecWorker.FourErrorsEndTheClaim | cec/cec_worker.c:234-249 | a run of four transient errors that leaves the first candidate unclaimed, whether it is free or not |
| CecWorker.FirstFreeIs | cec/cec_opcodes.c:56-67 | the first free candidate is the one with only occupied ones before it |
| CecWorker.Worker.SendMessageWithRetry | cec/cec_worker.c:70-117 | refused while a message is on its way; otherwise header with the own address and the message's other bytes are handed over, the first byte written and one token released |
| CecWorker.Worker.SendMessage | cec/cec_worker.c:119-122 | the same with three retries: 16 l + the receiver's address, and then the bytes given |
| CecWorker.Worker.Task | cec/cec_worker.c:171-192 | the message is started, announced as its only byte exactly for a ping |
| CecWorker.Worker.SkipToMatch | cec/cec_opcodes.c:860-861 | the index moves to the first matching entry |
| CecWorker.Worker.SendPingWithAutoIncrement | cec/cec_opcodes.c:853-873 | the next candidate is taken as own address and pinged |
| CecWorker.Worker.Interrupt | cec/cec_worker.c:203-298 | every interrupt is a step of the machine; a message sent is passed on to the reader unless it is a ping |
| CecWorker.EventsInNumbers | cec/cec_worker.c:203-298 | which bits of status and error make which event: an error while receiving comes first, then one while sending, then a byte received, then a byte or message sent |
| CecWorker.Worker.OnError | cec/cec_worker.c:219-249 | an unanswered ping ends the claim, other errors retry while retries are left |
| CecWorker.Worker.OnMessageSent | cec/cec_worker.c:275-283 | an answered ping of the own address leads to the next candidate |
| CecWorker.Worker.Receive | cec/cec_worker.c:251-272 | the buffer holds the bytes since the start of the message, passed on whole at its end |
| CecRing.ReadersSeeTheFrames | cec/cec_dev.c:92-101 | any beginning of the stored records decodes to a beginning of the frames, all of it to all of them |
| CecRing.RecordInBytes | cec/cec_dev.c:92-103 | a message is stored as its header, the number of its other bytes, and these |
| CecRing.PutAppends | cec/cec_dev.c:71-87 | a record with room and a good split is appended to the unread bytes, at all positions, including 4096 |
| CecRing.PutAppendsExactlyWhen | cec/cec_dev.c:71-87 | and this for every content of the memory behind the message exactly when there is room and the record is not split or split before its first byte |
| CecRing.AStandbyIsSpoiled | cec/cec_dev.c:82-87 | a message for which it fails |
| CecRing.FrontThenRest | cec/cec_dev.c:44-66 | what a read fetches, followed by what stays unread, is what was unread |
| CecRing.DoKeeps | cec/cec_dev.c:71-176 | read bytes and unread bytes together are the records added, after every addition and read |
| CecRing.SizeIsRightExactlyWhen | cec/cec_dev.c:32-42 | the number of unread bytes that a read computes, with messages added between its two looks at the end, is right exactly when the end has not wrapped between them |
| CecRing.AStandbyTearsTheSize | cec/cec_dev.c:35-36 | a message for which it is wrong |
| CecRing.AdditionLeavesTheFront | cec/cec_dev.c:44-69 | a message added during the copying changes neither the bytes copied nor the position left |
| CecRing.FramesArriveInOrder | cec/cec_dev.c:32-176 | over any run of additions and of the steps of reads of any sizes, until a size is torn: what was read decodes to the frames received, in order, and to all of them once nothing is unread |
| CecRing.Device.FetchSize | cec/cec_dev.c:35-38 | the size from the end as it is now; it is the number of unread bytes exactly when it is not torn |
| CecRing.Device.GetMessageBufferSize | cec/cec_dev.c:32-42 | the number of unread bytes |
| CecRing.Device.GetMessageFromBuffer | cec/cec_dev.c:44-69 | the oldest bytes, which are no longer unread |
| CecRing.Device.AddMessageBuffer | cec/cec_dev.c:71-90 | the buffer and the end position after both copies |
| CecRing.Device.AddMessageToBuffer | cec/cec_dev.c:92-103 | the frame's record is appended to the unread bytes where the exact condition holds |
| CecRing.Device.Read | cec/cec_dev.c:137-176 | the opener gets as many of the oldest bytes as asked for or there are, anyone else an error |
| CecWave.WaveLength | cec_adb_box/cec.c:103-217 | 15 + 80 n samples, or 45 + 240 n |
| CecSamples.SamplesOf300us | cec_adb_box/cec.c:138-213 | sample 15 + 80 i + 8 j + k is low exactly for k below 2 where bit j of block i is a 1, and below 5 where it is a 0; the bits are those of the byte from weight 128 down, the end flag and a 0 |
| CecSamples.SamplesOf100us | cec_adb_box/cec.c:255-334 | the same at 45 + 240 i + 24 j + k, for k below 6 and 15 |
| CecWave.ByteIsHeard | cec_adb_box/cec.c:143-172 | the bits that shifting to the left gives weigh the byte |
| CecWave.ListenerHearsTheMessage | cec_adb_box/cec.c:219-334 | a decoder by low time hears every message, and the end-of-message flag with its last byte only, in both forms |
| CecPin.PlaysTheSamples | cec_adb_box/cec.c:394-417 | the pin follows the samples one per interrupt, then idles high with the interrupt off |
| CecWave.IdleIsSilent | cec_adb_box/cec.c:409-416 | a line that stays high behind a waveform adds nothing to its low times |
| CecPin.ListenerAtThePin | cec_adb_box/cec.c:394-417 | the levels of the pin from the first interrupt on decode to the message, once the port is quiet and however long the line then stays idle |
| CecPin.HeardForAllArrivals | cec_adb_box/cec.c:349-386 | whatever interrupts come between the writer's stores, the pin decodes to the message: exactly when the port's interrupts were off when no sample was left to play |
| CecPin.HeardUnlessBetween | cec_adb_box/cec.c:103-217 | with the interrupts on it decodes to the message as well, if none comes from the first sample stored to the last one |
| CecPin.AfterTheLastSample | cec_adb_box/cec.c:394-417 | behind the last sample of a message nothing is left to play and the port is still on, for one more interrupt |
| CecPin.AnInterruptBetween | cec_adb_box/cec.c:394-417 | with one interrupt behind the first sample it decodes to nothing, for every message |
| CecPin.StoresSamples | cec_adb_box/cec.c:127-216 | undisturbed, the stores put the samples into the buffer in order and count them |
| CecPin.PlaysToTheEnd | cec_adb_box/cec.c:370-417 | samples that are all stored are played to the end, however many of the interrupts come before the port is turned on |
| CecPin.HexIsRead | cec_adb_box/cec.c:113-123 | a message in hexadecimal digits is read back |
| CecPin.MessagesInCharacters | cec_adb_box/cec.c:113-123 | 3036 is the bytes 30 36, and 3f821000 the bytes 3F 82 10 00 |
| CecPin.Sender.AddByte | cec_adb_box/cec.c:143-172 | the samples stored grow by those of the byte's bits, whatever interrupts come between |
| CecPin.Sender.PrepareToBuf | cec_adb_box/cec.c:103-217 | for any text of up to 10 bytes the stores are those of the message's waveform, one interrupted step after the other; with the port off the buffer holds exactly it |
| CecPin.Sender.AscIrq | cec_adb_box/cec.c:394-417 | one sample is played, or the line idles |
| CecPin.Sender.ProcCecWrite | cec_adb_box/cec.c:349-386 | the steps of the message's waveform and the turning on of the port, with the interrupts that come between, or an error when samples are left to play |
| Bytes.BitsReversed | smartcard/sci_drv.c:65-83 | what the inversion does to a nibble is to reverse its four bits |
| SciTable.TableInverts | smartcard/sci_drv.c:65-83 | all 256 entries of byte_invert reverse and complement their index |
| SciUart.StepKeepsInv | smartcard/sci_drv.c:891-1034 | every write, step of a read, interrupt and byte on the line keeps the accounting of sent bytes, echoes, answer and interrupt mode |
| SciUart.LineIsKept | smartcard/sci_drv.c:891-1034 | over any interleaving of writes, the steps of reads, interrupts and the line: what was written enters the transmitter once and in order, inverted where the card is, never more than 16 at a time; the mode is receive-only exactly when all is queued; the bytes read or lost are the beginning of the answer, and what was read is that without the lost ones; no echo is ever readable |
| SciPlain.AcceptedIsAsked | smartcard/sci_drv.c:2197-2206 | over every run, the history of what was accepted is the data of the writes in order, each cut at 1024 bytes |
| SciPlain.TransmitterGetsWrites | smartcard/sci_drv.c:964-992 | over every run, what entered the transmitter and what waits are that data, in the card's convention |
| SciPlain.InterruptIs | smartcard/sci_drv.c:891-1034 | an interrupt as a whole: all received bytes are stored; up to 16 waiting bytes go into an empty FIFO and up to 8 into a half empty one in mode 7; the read position moves by as many; the mode is 1 when none is left |
| SciPlain.ConvertedByTable | smartcard/sci_drv.c:977-984 | inverse convention is the table, direct convention the byte itself, for every byte of a sequence |
| SciPlain.OtherFirstByte | smartcard/sci_drv.c:936-952 | a first byte that is neither 0x03 nor 0x3B leaves the convention open and is stored as it came |
| SciPlain.ReadIsReady | smartcard/sci_drv.c:2103-2113 | over every run, a read is not refused once the answer has bytes and nothing waits to be sent |
| SciUart.LosesExactlyWhenStoredBetween | smartcard/sci_drv.c:2146-2149 | the answer is read whole and in order exactly when no interrupt stores a byte between the comparison that found the positions equal and the reset; as many are lost as were stored there |
| SciUart.AByteIsLost | smartcard/sci_drv.c:2146-2149 | a run that loses the second byte of an answer |
| SciUart.StoreLeavesExactlyWhen | smartcard/sci_drv.c:951-952 | an interrupt stores outside the buffer exactly when more than 1024 echoes and bytes of answer have come since it was cleared |
| SciUart.AFullWriteOverflows | smartcard/sci_drv.c:2197-2206 | after a write of 1024 bytes that is left to itself, the first byte of answer is stored outside |
| SciUart.QueuedReadsAsWritten | smartcard/sci_drv.c:975-987 | once all is queued, the bytes that entered the transmitter are, in the card's convention, those written |
| SciSent.CardGetsAllExactlyWhen | smartcard/sci_drv.c:2175-2228 | when all is queued and sent, the bytes that left the transmitter are, in the card's convention, those written exactly when no write began while bytes of the one before were in it; as many are missing as were |
| SciSent.AByteIsNeverSent | smartcard/sci_drv.c:2175-2228 | two writes of one byte each, of which the card gets the second only |
| SciUart.FirstByteSettles | smartcard/sci_drv.c:935-952 | the first byte of an answer to reset decides how all of it is stored |
| SciUart.ReadsReceivedExactlyWhen | smartcard/sci_drv.c:2135-2145 | a reader gets nothing but received bytes exactly when it asks for at most 1024 or that many have come |
| SciUart.AByteAndMemory | smartcard/sci_drv.c:2139-2145 | a run in which a reader asks for 1025 bytes, one has come, and 1024 are handed out |
| SciUart.RedReadStores | smartcard/sci_drv.c:702-740 | after an overrun 16 bytes are stored: what the receiver held, as without it, and values of the empty register for the rest |
| SciUart.RedReadOffersNothingExactlyWhen | smartcard/sci_drv.c:702-740 | a reader is offered such a value exactly when the receiver held fewer than 16 bytes and the read position lies before the new end |
| SciSlot.Slot.SetSerialIrq | smartcard/sci_drv.c:389-420 | the four known kinds are taken over, others ignored |
| SciSlot.Slot.ReceiveByte | smartcard/sci_drv.c:933-953 | one byte goes from receiver to buffer, converted, after it may have settled the convention |
| SciSlot.Slot.Fill | smartcard/sci_drv.c:966-987 | as many bytes as wait, up to the limit, go into the FIFO, which never overfills; the read position moves past their echoes |
| SciSlot.Slot.FillAndRelax | smartcard/sci_drv.c:964-992 | and the mode returns to receive-only exactly with the last one |
| SciSlot.Slot.EmptyReceiver | smartcard/sci_drv.c:702-740 | 16 reads of the receive register, each converted and stored |
| SciSlot.Slot.Handler | smartcard/sci_drv.c:891-1034 | an interrupt without overrun is a step of the machine; with one that shows before some byte, the bytes before it are stored, then 16 reads of the register, and nothing is sent |
| SciSlot.Slot.Write | smartcard/sci_drv.c:2166-2240 | the first 1024 bytes of the data, or all of fewer, wait to be sent in order and are added to what was accepted, and everything received before is dropped; refused while bytes wait, 0 without a card |
| SciSlot.Slot.ReadTake | smartcard/sci_drv.c:2094-2145 | the bytes from the read position on, as many as asked for or there, or would-block when there are none or bytes wait to be sent, or 0 without a card; for more than 1024 that much memory |
| SciSlot.Slot.ReadCompare | smartcard/sci_drv.c:2146 | whether the positions are equal, as a step of the machine |
| SciSlot.Slot.ReadRewindWptr | smartcard/sci_drv.c:2148 | the read position is set back, as a step of the machine |
| SciSlot.Slot.ReadRewindRptr | smartcard/sci_drv.c:2149 | the end is set back, as a step of the machine: what was stored behind the mark is gone |
| Ramzswap.DropKeeps | compcache/ramzswap.c:155-161 | freeing the old block of a page keeps the disk consistent |
| Ramzswap.FinishKeeps | compcache/ramzswap.c:166-207 | compression, allocation and storing, or their failure, keep it consistent |
| Ramzswap.DiskIsAnArrayOfPages | compcache/ramzswap.c:101-208 | over any interleaving of requests, one at a time per page: a read gives what the last write left, or zeros where none was or it failed; nothing is freed twice; an entry is in use exactly when it owns one live block, the one it points at |
| Ramzswap.ReadsWhatWasWritten | compcache/ramzswap.c:101-208 | over any run, a read gives the page of the last write to it, or 4096 bytes of 0 exactly where compression or allocation failed then |
| Ramzswap.ReadsZeros | compcache/ramzswap.c:94 | over any run, a page never written reads as 4096 bytes of 0, but for the swap header in page 0 |
| Ramzswap.PagesAreLatest | compcache/ramzswap.c:143-208 | the disk's pages are those of a history that does not know the disk |
| RamzswapRace.OverlappingWritesFreeTwice | compcache/ramzswap.c:160-161 | two writes that free before either clears free twice exactly when there was a block, and do no other harm by that |
| RamzswapRace.BeforeTheFirst | compcache/ramzswap.c:160-164 | in any order of tests, frees and clears: how often the block has been freed, and what each write that still has to free has found |
| RamzswapRace.LateFree | compcache/ramzswap.c:160-161 | a free that comes after the other write has finished takes that write's block, or nothing, or is a second free where compression failed |
| RamzswapRace.TwoWritesToOnePage | compcache/ramzswap.c:143-208 | for every order of the four parts each of two writes to one page, which of three things go wrong and exactly when: a block freed twice, a block lost, the page read wrongly |
| RamzswapRace.ExitLeavesTheLost | compcache/ramzswap.c:425-430 | exit does not free a lost block |
| Ramzswap.ExitFreesAll | compcache/ramzswap.c:425-430 | at exit every block is freed, none twice |
| Ramzswap.ValidRequestsAreWholePages | compcache/ramzswap.c:64-77 | the valid requests are exactly those for one whole page, and the index computed is that page's |
| Ramzswap.Device.constructor | compcache/ramzswap.c:314-338 | the swap header in page 0, all others zeros |
| Ramzswap.Device.StorePage | compcache/ramzswap.c:168-205 | the compressed page, or the page itself where that is no longer, in a block of its own, or cleared flags |
| Ramzswap.Device.Write | compcache/ramzswap.c:143-208 | the page is there afterwards, or zeros exactly when compression or allocation failed |
| Ramzswap.Device.Read | compcache/ramzswap.c:101-141 | the page as the array has it, 4096 bytes of 0 where the entry is not in use; decompression never fails |
| Ramzswap.Device.MakeRequest | compcache/ramzswap.c:213-233 | every valid request reads or writes its page, every other one is refused and changes nothing |
| Ramzswap.Device.Exit | compcache/ramzswap.c:414-434 | the loop leaves no block and frees none twice |
| Words.OrIntoField | smartcard/sci_drv.c:247-250 | a value or-ed into a cleared field is the field, and its excess is or-ed into what lies above |
| Calibration.CalcBogomips | cpu_frequ/cpu_frequ.c:335-378 | both loops end; the result is the multiple of the last bit tried that lies below the tick by at most that bit, a power of two at most a 256th of the result; less than a 256th is missing exactly for ticks above 4096 and up to 2^31 loops; 4096 below, 0 above |
| Calibration.DoubleUp | cpu_frequ/cpu_frequ.c:340-356 | the first doubling that spans a tick, or 0 after the word has wrapped |
| Calibration.Refine | cpu_frequ/cpu_frequ.c:361-376 | the eight lower bits keep the tick between the result and the result plus the last bit |
| PllDividers.Search | cpu_frequ/pll0_check_stb7100.c:33-54 | a frequency is accepted with the least divider that makes it a multiple of 54, and rejected only if that divider has no multiplier from 3 to 255 |
| PllDividers.Check | cpu_frequ/pll1_check_stb7100.c:36-43 | a turn of the loop finds a whole multiplier exactly when the product divides |
| PllDividers.Merge | cpu_frequ/cpu_frequ.c:777-785 | the three masks and ors put in the dividers and leave everything above bit 18 alone |
| PllDividers.FieldsInNumbers | cpu_frequ/cpu_frequ.c:131-151 | below bit 19 the register is 65536 p + 256 n + m |
| PllDividers.FrequencyAsChecked | cpu_frequ/cpu_frequ.c:131-151 | dividers found for a frequency give it back, modulo 2^32 Hz, so exactly up to 4294 MHz |
| PllDividers.FrequencyThatWraps | cpu_frequ/cpu_frequ.c:131-151 | 4320 MHz is accepted with n = 80 and m = 1, and not given back |
| PllDividers.Pll.WritePll0 | cpu_frequ/cpu_frequ.c:855-955 | the register decodes to the dividers and PDIV 0, enabled and not bypassed, other bits unchanged; the dividers only ever change while the clock is bypassed and after the PLL was off; the frequency is then a division by zero exactly for the divider 0 |
| PllDividers.Pll.WritePll1 | cpu_frequ/cpu_frequ.c:721-799 | the register decodes to the dividers and PDIV 1, the bits above unchanged; a division by zero exactly for the divider 0 |
| PllDividers.CheckThenWrite | cpu_frequ/cpu_frequ.c:575-580 | a frequency is accepted exactly when its least divider is in range, and writing the number found to the driver makes the register decode to that frequency |
| CardClock.SetClock | smartcard/sci_params.c:79-91 | the search ends for every frequency asked for, with the fastest clock that is not faster, which is 63 MHz divided by twice the divisor |
| CardClock.Mode0IsClosest | smartcard/sci_params.c:306-313 | the value is the largest that gives at least the rate |
| CardClock.Mode1IsCloseExactlyWhen | smartcard/sci_params.c:315-324 | the value is at most the exact ratio and less than 1.66 below it exactly for rates below 4096000 |
| CardClock.TheFirstRateThatWraps | smartcard/sci_params.c:315-324 | at 4096000 the value is 0 where the exact ratio is more than 42949 |
| CardClock.Asc.SetReqBaud | smartcard/sci_params.c:483-522 | mode bit and value for the rate, the register's other bits unchanged for rates of 96 and more |

## Left out

- Kernel plumbing: module load and unload, register mapping, pins, procfs and ioctl copying, I2C, delays and sleeps. Waiting loops appear as the attempt that follows them, or as a refusal.
- PTI: the firmware image, cache invalidation, the poll for other boards than `__TDT__`, the debug counters of the poll, and the stream check. The injector is modelled with `demux_tag`, as on SPARK7162; the other boards are the case of the identity.
- PTI environment: the write register stays below the top, the firmware runs at most 4094 packets ahead, and, as the driver's own comment assumes, the hardware does not overwrite a span before the injector has copied it.
- PtiPipeline.DeliveredInOrder: without discarded packets; a discard restarts the numbering in `PtiRing`, and what happens to entries still queued then is not followed through the injector. The set of registered demultiplexers and their sources do not change during a run.
- PtiSlots.SlotTable.SetPid: requires that the slot has no table index yet, and that the PID is not 0xffff, which no 13 bit PID of section 2.4.3.2 of ISO/IEC 13818-1 is; `PtiSlots.SetKeepsExactlyWhenFree` says what the first is needed for. Handles out of range are not modelled.
- PtiSlots: `SetPid`, `ClearPid` and `Free` come one after the other; they sleep between their two writes, and it is the lock of their callers, which is not part of this model, that keeps others out meanwhile. The firmware's scan is free to come between the writes.
- Atr.Answer.InitFromArray: stops with a status of its own where the source writes to an eighth row. The value left in an absent interface byte is not compared. Clock rates, integer values and parameters read from the record are table lookups and left out.
- Atr.Answer.GetInterfaceByte: for the characters TA to TD; the source indexes its row with whatever number it is given.
- CecWorker.Worker.SendMessageWithRetry: the waiting for up to a second is the caller's; the race between a caller that has just seen the sender idle and an interrupt is left out, as is that the source also writes the own address into the caller's buffer. Messages have at most 16 bytes, as many as the buffer; the source copies any length, and `cec/cec_dev.c:119-128` passes on up to 256.
- CecWorker.ClaimTakesFirstFree: nobody else sends while an address is claimed, and no other device pings in the own name. Device types are 0 to 7, as many as the mask has bits.
- CecWorker.Worker.SkipToMatch: stops at the end of the table, where `cec/cec_opcodes.c:871` reads on past its last entry.
- CecWorker.Worker.Receive: in the passive mode of the driver, which passes messages on; the replies of the active mode are left out, and no other device pings in the own name.
- CEC: names of opcodes, keys of remote controls, and `CECdev_write`.
- CecRing.Device.AddMessageBuffer: has the pointer's stride as a parameter, 258 in the source and 1 where it is meant to step by bytes. Interrupted waits for the semaphore are left out.
- CecRing.FramesArriveInOrder: an addition is one step, and one read is in progress at a time. `CECdev_read` computes the size before it waits for the semaphore, so two reads at once can both copy what is there only once.
- SciUart.LineIsKept: for a card whose convention is known, up to a store that leaves the buffer or an overrun. The card speaks only when it has been sent everything. One call at a time: a write or a read during a read of another task is not modelled. A byte on the wire when the transmitter is reset is dropped with the FIFO. Only slot 0 is modelled; slot 1 has the same code.
- SciSlot.Slot.Handler: for stores that lie in the buffer; `SciUart.StoreLeavesExactlyWhen` says when they do.
- Smart card: voltages, detection, card resets and the other parameter setters.
- Ramzswap: the inside of LZO, assumed to give back what it compressed; building of the swap header's content; failures during module initialisation. The disk has at least one page.
- RamzswapRace.TwoWritesToOnePage: a read beside a write of one page is left out, and what a write does under the lock is one part: the other one's test, free and clearing of the flags do not come in the middle of it.
- CecPin.Sender.PrepareToBuf: texts for at most 10 bytes, which is the size of the source's message buffer. What sscanf makes of characters that are not hexadecimal digits is a parameter. A store, a change of a position and an interrupt are each one step.
- Calibration.CalcBogomips: a delay of so many loops spans a tick exactly from a fixed number of loops on.
- PllDividers.Search: computes with exact numbers where the source has single precision. The STB7100's registers only.
- CardClock.Asc.SetReqBaud: not for a rate of 0, by which the source divides.
- Bit operations are written as division, remainder, addition and subtraction, or as sets of flags.
- The drivers for AVS switches, fan, box type, modulator, CI slots, signal information, `bpamem`, `e2_proc` and `stm-asc` would only add easy members.
