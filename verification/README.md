# Dafny model of libftdi and its streaming layer

This project models four parts of the repository and proves what they promise.

* **Reading.** A USB transfer is a run of packets, each with two modem status bytes in front. `Packets` says what
  the payload of a transfer is (`Strip`). The C library squeezes the status bytes out in place and keeps a leftover
  window (`Context`, `SyncRead`, `AsyncRead`); the streaming layer walks over the transfer (`StreamRead`). All three
  are proved against `Strip`, `ReadHistory` proves what any sequence of calls does to the byte stream, and `AsyncDone`
  what the caller of an asynchronous read is told. Writing in chunks, synchronously and by callbacks, is in `Writes`.
* **Streaming.** `StreamModel` is a transition system for the transfers, the flags and the user's queue. libusb, the
  poller and the user's callbacks are free to do anything: complete a transfer with any status and any count, refuse
  a submit, throw. `StreamInvariant` has what every step keeps, `StreamRuns` the theorems about whole runs,
  `StreamCancel` what stops a loop and what becomes of a request to disable a stream, `StreamEnable` what enabling a
  transfer does, `StreamDrain` that writing makes progress, `StreamStop` what a stop means, `StreamCounters` what is
  counted and reported, `StreamRestart` what the device gets twice if a loop is stopped and started again,
  `StreamShutdown` a loop that ends too early, `StreamLoop` the callbacks and the event loop as methods that change
  fields, proved equal to the transitions, and `StreamApi` the constructor checks and the requests of other threads.
* **Baud rates.** `Bits`, `Baud`, `BaudAM`, `BaudSet`, `BaudAMSet`, `BaudNearest` and `BaudChip`: rounding, clamping,
  encoding, the split into `value` and `index`, the 5% tolerance, the nearest rate, all in 32-bit arithmetic where the
  code can wrap around.
* **EEPROM.** `Checksum`, then `Eeprom` (the image as a function of the fields), `EepromLayout` (no part overwrites
  another), `EepromDecode`, `EepromReadBack`, `EepromFields`, `EepromSpecific` and `EepromRoundTrip` (what comes
  back), `EepromAgain` and `EepromRebuild` (building what was decoded), `EepromBuffer` (both functions on the buffer of
  the context), `EepromDevice` (writing, reading and erasing the memory chip), `EepromGuess` (the size that reading
  leaves, and the whole way there and back), `EepromDamage` (images that changed) and `EepromBytes` (the address map).

The environment is a parameter everywhere: a device is a finite script of transfer results, followed by failures;
events, completions and callback answers are arguments of the steps.

Facts a reader may not expect:

* The comment that the *nearest* supported rate is returned (`src/ftdi.c:1373`) is not true in general.
  `NearestOnChipIff` says exactly when it is, for every chip; `NotAlwaysNearest` and `WrongClock` give requests for
  which it is not.
* A bulk error makes `ftdi_read_data` lose what it copied already and what the failing transfer brought
  (`src/ftdi.c:2051-2053`). `LosesIff` says exactly when, by what is there before the call.
* The callbacks of an asynchronous read drop nothing (`RunKeepsAll`), but `ftdi_transfer_data_done` returns -1 instead
  of the count unless the last transfer used has completed (`src/ftdi.c:1909-1917`, `CountIff`), even if all bytes are
  there; and a refused submit loses the window (`ReadDataSubmit`).
* Disabling the reading of a stream that is being read never stops only that stream
  (`src/FtdiStreamStatic.cpp:95-99`, `365-373`): whatever happens, its transfer stays in flight or the whole loop stops
  (`ReadingEndsWithLoop`). If the transfer comes back cancelled, the loop stops; if it completes before that and is
  submitted again, the request is lost (`DisableIff`, with an input for each).
* A loop that is stopped while a write is under way can send the same bytes again when it is started again
  (`RestartRepeats`, `SentAgain`). `LifeLevelIff` says exactly when.
* A loop can end while libusb still owns its transfers (`BusyFinishIff`, `EndsBusy`), and so can the wait for an
  asynchronous read, if the event handling fails twice (`FreedInFlight`, `WaitsForCancelled`).
* An image of 128 bytes that was written to a larger chip is usually read back with another size, and then decoded
  differently (`GuessIff`, `WrongGuess`).
* In an FT232R or FT230X image whose strings leave less than four bytes, the bytes behind the strings run over the
  checksum and, at full length, wrap to address 0 (`OverrunPlaces`). All of these are written again later.
* The contents of a blank chip cannot be decoded inside the buffer (`BlankIsNotDecodable`); reading one leaves the
  size unknown as a rule (`SizeOfBlank`).

`dafny verify dfyconfig.toml` checks everything.

## Model

| member | source | states |
|---|---|---|
| `Packets.StripAtBoundary` | src/ftdi.c:2054-2081 | Stripping the status bytes distributes over any cut at a packet boundary. |
| `Packets.PayloadNonEmpty` | src/ftdi.c:2054-2081 | A transfer of more than two bytes has payload exactly when packets have at least three bytes. |
| `Packets.PacketSizesMustAgree` | src/FtdiStream.cpp:25-27 | Two packet sizes find the same payload in every transfer if and only if they are equal. |
| `Packets.MovePacket` | src/ftdi.c:2062-2070 | One overlapping `memmove` of a full packet: the packet is still as received when it is moved, and the payload so far grows by exactly that packet; all bytes read and written are inside the transfer, and those behind it are kept. |
| `Packets.MoveFragment` | src/ftdi.c:2071-2080 | The same for the last, shorter packet. |
| `Packets.Compact` | src/ftdi.c:2054-2081 | In-place compaction: the window at offset 2 of the computed length is the payload of every packet, in order, and nothing behind the transfer is touched. |
| `SyncRead.ReadData` | src/ftdi.c:2009-2121 | Return value, destination buffer, leftover window and consumed transfers of one call are those of the reference `Read`, on every path: closed device, no packet size, enough in the window, bulk errors. |
| `SyncRead.ReadLoop` | src/ftdi.c:2045-2120 | The loop over bulk transfers leaves the same result as the reference, from any point on. |
| `SyncRead.Receive` | src/ftdi.c:2054-2081 | After a transfer the window is its payload. |
| `SyncRead.Deliver` | src/ftdi.c:2087-2117 | The window goes to the caller as far as there is room; the rest stays in the window. |
| `ReadHistory.GatherConserves` | src/ftdi.c:2045-2117 | What one call returns or loses, its leftover and the payload still to come add up to what was there before. |
| `ReadHistory.StreamConserved` | src/ftdi.c:2009-2121 | Conservation over any sequence of calls of any sizes and any device behaviour: the bytes returned, those lost in error returns with what failing transfers brought, the leftover window and the payload still to come are all there is, in order. |
| `ReadHistory.StreamRefinement` | src/ftdi.c:2009-2121 | The bytes of successful returns so far, followed by the leftover window, are the concatenated payload of exactly the transfers consumed if and only if no error return lost a byte; and in every run nothing else is missing, and nothing is duplicated or reordered. |
| `ReadHistory.LosesIff` | src/ftdi.c:2045-2117 | A call loses bytes, by what is there before it: if and only if the window and the transfers up to the first one that ends a call do not meet the request, and that one ends it with an error: it fails, or it has more than its status and no payload, which takes packets of two bytes. Then all of them are lost, and the payload of a failing transfer. |
| `ReadHistory.ErrorLosesGathered` | src/ftdi.c:2051-2053 | An input: a byte was copied to the caller, the next transfer fails, and the caller gets the error code only. |
| `ReadHistory.ErrorLosesItsOwn` | src/ftdi.c:2051-2053 | An input: a transfer times out after a byte, and the byte is dropped. |
| `ReadHistory.ShortOnlyOnStatus` | src/ftdi.c:2082-2117 | A successful call is short only if it ended in a transfer without payload, and then leaves nothing in the window. |
| `ReadHistory.ReadTerminates` | src/ftdi.c:2045-2120 | With packets of at least three bytes a call consumes at most one transfer for every byte still missing. |
| `ReadHistory.NeverReachedIff` | src/ftdi.c:2118-2120 | `return -127` is unreachable for all inputs if and only if packets have at least three bytes. |
| `AsyncRead.CallbackOutcome` | src/ftdi.c:1609-1694 | A callback leaves the request finished or waiting again, never both or neither; bytes delivered before stay, and the offset never exceeds the size. |
| `AsyncRead.ReadDataSubmit` | src/ftdi.c:1807-1873 | A submit finishes from the window, or moves the window to the caller and puts one transfer in flight; failures return no control block. The window is lost exactly if it was not empty and not enough, and libusb allocated the transfer but refused it. |
| `AsyncRead.ReadDataCb` | src/ftdi.c:1609-1694 | One callback, in place, is one step of the reference request; while the request waits the window is empty. Packets of two bytes, which have no payload, are included. |
| `AsyncRead.DeliverToRequest` | src/ftdi.c:1647-1683 | The compacted window is copied to the request; what does not fit becomes the leftover. |
| `AsyncRead.AsyncEqualsSync` | src/ftdi.c:1609-1694 | For the same leftover and transfers the request finishes exactly when the synchronous call succeeds, with the same bytes, return value and leftover; until then it holds exactly the bytes gathered. |
| `AsyncRead.GatherEqualsRun` | src/ftdi.c:2024-2117 | The same from any intermediate state. |
| `AsyncRead.RunKeepsAll` | src/ftdi.c:1609-1694 | The callbacks drop nothing, whatever the statuses of the transfers: request and window have the payload of every completion, in order. |
| `AsyncRead.WaitsIff` | src/ftdi.c:1609-1694 | A request is not over if and only if nothing was cancelled, every transfer could be submitted again, and what arrived is not enough. |
| `AsyncRead.EndsWith` | src/ftdi.c:1641-1694 | It ends with the status of a cancellation if the last transfer was cancelled before there was enough, and with 1 otherwise. |
| `AsyncDone.TransferDataDone` | src/ftdi.c:1886-1922 | Waiting for a read, with interruptions, failing event handling and the wait for the cancelled transfer, is the reference `Await`; libusb is asked to cancel the transfer exactly if the event handling fails before the request is finished. |
| `AsyncDone.AwaitIsRun` | src/ftdi.c:1886-1922 | The whole wait exactly: it returns with the request if the callbacks before the first failure of the event handling finish it; after a failure it goes on until the callbacks finish the cancelled transfer or there is a second failure, and returns the code of the first. |
| `AsyncDone.CancelledWait` | src/ftdi.c:1897-1906 | The inner wait exactly: it ends if and only if the callbacks before the next failure finish the request, or there is a next failure, and the request is as they leave it. |
| `AsyncDone.FreedInFlight` | src/ftdi.c:1897-1906 | A request is freed while libusb still owns its transfer only if the event handling failed twice. |
| `AsyncDone.WaitsForCancelled` | src/ftdi.c:1897-1906 | An input: after one failure the function waits, and returns when the cancelled transfer comes back or there is a second failure. |
| `AsyncDone.CountIff` | src/ftdi.c:1807-1922 | The caller is told the number of its bytes if and only if the request was finished before the event handling failed, and no transfer was needed or the last one used has completed; otherwise it gets an error, and the bytes are lost to it. |
| `AsyncDone.CancelledLoses` | src/ftdi.c:1909-1921 | An input: a byte of the window is in the buffer, the transfer is cancelled, and the caller gets -1. |
| `AsyncDone.FullButTimedOut` | src/ftdi.c:1909-1921 | An input: all bytes arrive before the transfer times out, and the caller gets -1. |
| `StreamRead.WalkPackets` | src/FtdiStreamStatic.cpp:104-142 | The pointer walk makes exactly the callbacks of the reference, up to one that throws, and counts their payload. |
| `StreamRead.WalkFindsPayload` | src/FtdiStreamStatic.cpp:127-132 | Without modem status the buffers handed over concatenate to the same payload as the in-place compaction. |
| `StreamRead.WalkKeepsTransfer` | src/FtdiStreamStatic.cpp:120-125 | With modem status they concatenate to the whole transfer, without a last packet of one byte. |
| `StreamRead.ChunkSizes` | src/FtdiStreamStatic.cpp:115-136 | With modem status every buffer has two bytes up to one packet; without it one byte up to the payload of a packet. |
| `StreamRead.CounterCountsPayload` | src/FtdiStreamStatic.cpp:121-128 | The byte counter grows by exactly the payload, in both modes. |
| `StreamRead.AgreesWithLibrary` | src/FtdiStream.cpp:25-27 | The streaming layer and the C library find the same payload in every transfer if and only if the one packet size of the layer is the packet size of the device. |
| `Writes.WriteData` | src/ftdi.c:1585-1607 | The device ends up with a prefix of the buffer, all of it on success, through exactly the windows of the reference. |
| `Writes.WriteLoop` | src/ftdi.c:1585-1607 | The loop is the reference run, transfer by transfer. |
| `Writes.WriteRunDelivers` | src/ftdi.c:1593-1604 | The run appends to the device the bytes of the buffer between the two offsets, for any partial transfers. |
| `Writes.ProgressDelivers` | src/ftdi.c:1593-1604 | If every transfer makes progress the loop ends with the whole buffer written, in at most one transfer a byte. |
| `Writes.WindowsAreConsecutive` | src/ftdi.c:1595-1603 | Each submitted window is the next min(chunk, rest) bytes and starts where the accepted bytes end. |
| `Writes.WriteDataSubmit` | src/ftdi.c:1745-1791 | A control block is returned exactly if the device is open and libusb can allocate and take the transfer; the first window is then in flight. |
| `Writes.WriteControl.WriteDataCb` | src/ftdi.c:1697-1727 | One callback is one step of the reference request, and the device has got exactly the bytes the offset advanced over. |
| `Writes.SentIsPrefix` | src/ftdi.c:1697-1727 | In every run of callbacks, whatever the statuses, the device has exactly the bytes up to the offset. |
| `Writes.AsyncWriteEqualsSync` | src/ftdi.c:1697-1791 | Without cancellation or failed submits the callbacks get exactly as far as the synchronous loop, and finish exactly when it does; only an empty request waits for one completion. |
| `Writes.WriteWaitsIff` | src/ftdi.c:1697-1727 | A write request is not over if and only if nothing was cancelled, every transfer could be submitted again, and the synchronous loop would not be through with the same transfers. |
| `Writes.WriteEndsWith` | src/ftdi.c:1708-1726 | It ends with the status of a cancellation if the last transfer was cancelled before all was sent, and with 1 otherwise. |
| `Writes.WriteCountIff` | src/ftdi.c:1697-1922 | A finished write returns the number of bytes the device has got if and only if the last transfer used has completed, and -1 otherwise, although the device has them. |
| `Writes.SentButTimedOut` | src/ftdi.c:1909-1921 | An input: all bytes go out before the transfer times out, and the caller gets -1. |
| `Baud.DivisorRange` | src/ftdi.c:1353-1366 | Below half the clock the divisor is at least 16 and never 0x20000, so the integer part stays below the fraction bits; it is clamped only below 184 baud. |
| `Baud.FineSetting` | src/ftdi.c:1351-1369 | Divisor and rate are both correctly rounded quotients. |
| `Baud.SpecialSetting` | src/ftdi.c:1338-1349 | From half the clock on, the three special codes and their rates. |
| `Baud.Accuracy` | src/ftdi.c:1351-1369 | The rounding bound: the rate is within 1/2 + baud/(2*divisor) of the request. |
| `Baud.AccurateIsTolerated` | src/ftdi.c:1467-1472 | That bound is inside the 5% tolerance. |
| `Baud.ToleratedRates` | src/ftdi.c:1333-1371 | Exactly which requests are served within 5%, for both clocks. |
| `Bits.OrOfDisjoint` | src/ftdi.c:1368-1368 | `|` of numbers without common bits is their sum, so the parts of an encoded divisor do not mix. |
| `BaudAM.SearchAM` | src/ftdi.c:1240-1294 | The loop over the two candidates returns the better one, the first on a tie, and its rate. |
| `BaudAM.TryDivisor` | src/ftdi.c:1246-1270 | Each candidate is the smallest divisor of the chip that is not below the one tried, or its largest if there is none. |
| `BaudAM.ToClkBitsAM` | src/ftdi.c:1227-1307 | The chosen divisor, its rate and its encoding. |
| `BaudAM.SupportedNeighbours` | src/ftdi.c:1229-1268 | The two candidates are supported divisors around the quotient with no supported divisor between them. |
| `BaudAM.NearestIff` | src/ftdi.c:1227-1307 | The result minimises the distance to the request over all divisors of the AM chip if and only if the request is at most 2250000 or at least 2666667. |
| `BaudAM.BestIsSupported` | src/ftdi.c:1240-1294 | The chosen divisor is always one the chip has. |
| `BaudSet.EncodeRoundTrip` | src/ftdi.c:1321-1331 | Decoding a divisor from /2 on gives it back, and it never gets one of the special codes. |
| `BaudSet.ToClkBitsRealises` | src/ftdi.c:1333-1371 | The code decodes to a divisor of the chip whose rate, rounded, is the returned one. |
| `BaudSet.AMRealises` | src/ftdi.c:1295-1306 | The same for AM, with a code of 16 bits. |
| `BaudSet.ConvertRoundTrip` | src/ftdi.c:1377-1427 | For every positive int and every chip: what the chip reads out of `value` and `index` is a divisor it has, at the clock it selects, and its rate rounded to nearest is the returned rate; the interface number survives in `index`. |
| `BaudSet.GateIsExact` | src/ftdi.c:1463-1472 | Under 32-bit wrap-around the tolerance check decides exactly 20*max <= 21*min. |
| `BaudSet.AcceptedRates` | src/ftdi.c:1463-1472 | Exactly the accepted requests of all chips but AM, including requests for which `baudrate*10` wraps. |
| `BaudAMSet.CloseDivisors` | src/ftdi.c:1240-1294 | From /8 on the better of two neighbouring AM divisors is always within the tolerance. |
| `BaudAMSet.AcceptedRatesAM` | src/ftdi.c:1463-1472 | Exactly the accepted requests of an AM chip: 175 to 3150000, but for five gaps between its fast rates. |
| `BaudSet.BaudContext.ConvertBaudrate` | src/ftdi.c:1377-1427 | The method computes the reference conversion, so for a positive rate the chip reads a divisor it has out of value and index, with the returned rate. |
| `BaudSet.BaudContext.SetBaudrate` | src/ftdi.c:1450-1481 | A control transfer is sent, with the converted value and index, exactly for accepted requests (times four in bitbang mode); the stored rate changes only if it succeeds. |
| `BaudNearest.SmallerIsNotBetter` | src/ftdi.c:1351-1369 | Below half the clock the next smaller divisor is never nearer: rates get denser. |
| `BaudNearest.FineNearestIff` | src/ftdi.c:1351-1369 | There the rate is the nearest one if and only if the next larger divisor is no nearer. |
| `BaudNearest.CoarseNearestIff` | src/ftdi.c:1338-1349 | Between the special codes it is the nearest one exactly in the lower half of each gap. |
| `BaudNearest.FineCondition` | src/ftdi.c:1351-1369 | Below half the clock a condition on the request alone says the same: it is not in the lower half of a gap whose faster rate it rounds to. |
| `BaudNearest.NearestRateIff` | src/ftdi.c:1333-1373 | For the clock that is chosen: the nearest of its rates is returned if and only if a condition on the clock and the request holds. |
| `BaudNearest.NotAlwaysNearest` | src/ftdi.c:1333-1373 | The documentation is wrong in general: 1455000 baud is served with 1500000 although 1411765 is nearer. |
| `BaudChip.NearestOnChipIff` | src/ftdi.c:1333-1427 | For every chip and every positive int: the documented "nearest supported baud rate", of all divisors at all clocks of the chip, is returned if and only if a condition on the chip and the request holds. |
| `BaudChip.FastClockIff` | src/ftdi.c:1391-1402 | From 733 baud on, the rates of the slow clock are never nearer than all those of the fast one. |
| `BaudChip.SlowIsExact` | src/ftdi.c:1351-1369 | From 184 to 732 baud the rate at the slow clock is exactly the request. |
| `BaudChip.WrongClock` | src/ftdi.c:1393-1402 | An input: 300000000 baud wraps around to the slow clock and is served with 3000000, although the chip has 12000000. |
| `StreamInvariant.PutKeepsInv` | src/FtdiStreamStatic.cpp:43-160 | A change of one transfer and its stream keeps the invariant if it does so for the two. |
| `StreamInvariant.WriteCallbackKeepsInv` | src/FtdiStreamStatic.cpp:162-218 | Any write completion, with any partial count, failing confirm, failing fill or failed submit, keeps the invariant. |
| `StreamInvariant.ReadCallbackKeepsInv` | src/FtdiStreamStatic.cpp:78-160 | Any read completion keeps it, with a user callback that throws anywhere. |
| `StreamInvariant.EnableOneKeepsInv` | src/FtdiStreamStatic.cpp:600-605 | Enabling and submitting a transfer keeps it, also if the submit throws. |
| `StreamInvariant.NoticeKeepsInv` | src/FtdiStreamStatic.cpp:316-375 | So does the notice event, also if a reset or a submit in it throws. |
| `StreamInvariant.TimerKeepsInv` | src/FtdiStreamStatic.cpp:279-314 | So does the timer event. |
| `StreamInvariant.EventsKeepInv` | src/FtdiStreamStatic.cpp:582-607 | So does any sequence of events, up to an exception. |
| `StreamInvariant.ProcessStepKeepsInv` | src/FtdiStreamStatic.cpp:564-638 | So does a step, whatever its outcome; and as long as the loop runs, the enabled transfers are exactly those in flight. |
| `StreamRuns.InitKeepsInv` | src/FtdiStreamStatic.cpp:522-549 | Creating and submitting the transfers keeps the invariant, also if a submit throws or a descriptor cannot be added to the epoll set. |
| `StreamRuns.InitIsSafe` | src/FtdiStreamStatic.cpp:443-549 | A start that does not throw establishes the invariant; the loop then runs exactly if all descriptors could be added. |
| `StreamRuns.Ownership` | src/FtdiStreamStatic.cpp:742-781 | In every reachable state a transfer in flight is enabled, no callback ever found its transfer disabled, none was ever submitted while in flight, and while the loop runs enabled means in flight. |
| `StreamRuns.WriteExactness` | src/FtdiStreamStatic.cpp:162-218 | In every reachable state: confirmed plus queued bytes are what was appended; the device has a prefix of it, equal to the confirmed bytes while the loop runs, and at most one buffer beyond them afterwards. |
| `StreamRuns.ReadExactness` | src/FtdiStreamStatic.cpp:78-160 | In every reachable state, for packets of at least two bytes and everything that arrived on a stream: its user has got exactly the payload, or with modem status the whole transfers without one-byte fragments, while the loop runs, and a prefix of it afterwards. |
| `StreamRuns.BoundedShutdown` | src/FtdiStreamStatic.cpp:609-630 | In any run, at most `cancel_counter` steps that see an event leave the loop stopping and return true. |
| `StreamRuns.AtMostThreeStoppingSteps` | src/FtdiStreamStatic.cpp:451-638 | From any start that is three, so the fourth such step ends the loop or throws. |
| `StreamRuns.FinishIsIdle` | src/FtdiStreamStatic.cpp:609-630 | A step that ends the loop without exhausting the counter leaves no transfer in flight. |
| `StreamRuns.BusyFinishIff` | src/FtdiStreamStatic.cpp:564-638 | A step ends the loop although libusb owns a transfer if and only if the poll failed then, or the loop was stopping already, the cancel counter was used up and the transfer had not come back. |
| `StreamShutdown.EndsBusy` | src/FtdiStreamStatic.cpp:609-630 | A run: two streams are read, the loop is stopped, the cancelled transfers do not come back, and the fourth step ends the loop with both in flight. |
| `StreamRuns.StoppingCancelsAll` | src/FtdiStreamStatic.cpp:615-621 | While a stopping loop goes on, every transfer in flight has been asked to cancel. |
| `StreamRuns.NoticeStops` | src/FtdiStreamStatic.cpp:332-350 | Events with a stop notice leave the loop stopping, or throw. |
| `StreamRuns.StopPollEnds` | src/FtdiStreamStatic.cpp:815-836 | `stop_poll` ends at most three steps after the one that sees its notice, not counting polls that run into a time limit; a failing poll ends it at once. |
| `StreamCancel.ReadGoesOnIff` | src/FtdiStreamStatic.cpp:78-160 | After a read completion the loop goes on if and only if the transfer completed, no callback threw and it was submitted again; a request to cancel it is then forgotten. |
| `StreamCancel.WriteGoesOnIff` | src/FtdiStreamStatic.cpp:162-218 | After a write completion the loop goes on if and only if the transfer was not cancelled, what it sent was confirmed, the fill did not fail, and there was nothing to send or the submit was taken; then the transfer is in flight with the front of what is left of the queue, or disabled if that is empty. |
| `StreamCancel.NoticeAsksToCancel` | src/FtdiStreamStatic.cpp:352-374 | The notice of a disable request asks libusb to cancel the transfer, drops the request, and changes nothing else of a transfer in flight. |
| `StreamCancel.DisableIff` | src/FtdiStreamStatic.cpp:365-373 | One schedule exactly, from the request over the notice to the completion: either the transfer completes and is in flight again, and the request is lost, or the whole loop stops. |
| `StreamCancel.ReadingEndsWithLoop` | src/FtdiStreamStatic.cpp:78-375 | The reading of a transfer never ends while the loop runs: in any run from a state in which it is in flight, with any requests and events, the loop stops with all streams or the transfer is in flight. |
| `StreamCancel.CancelledStopsAll` | src/FtdiStreamStatic.cpp:95-99 | With two streams, a cancelled transfer of the disabled one stops the loop. |
| `StreamCancel.CompletedLosesRequest` | src/FtdiStreamStatic.cpp:101-146 | With the same streams, a transfer that completes first is read on, and nobody remembers the request. |
| `StreamEnable.EnableOneServes` | src/FtdiStreamStatic.cpp:599-605 | Enabling one transfer: it throws exactly if its submit does; otherwise it is in flight exactly if it was or has something to do, a write with the front of the queue. |
| `StreamEnable.EnableRangeServes` | src/FtdiStreamStatic.cpp:599-605 | Enabling a descriptor throws exactly if a disabled transfer of it cannot be submitted; otherwise every one that has something to do is in flight, and nothing else has changed. |
| `StreamEnable.ReadyServes` | src/FtdiStreamStatic.cpp:598-606 | A whole step in which a descriptor of the user is ready, with the same exact account. |
| `StreamEnable.EnableAllServes` | src/FtdiStreamStatic.cpp:354-363 | The same for all requested descriptors, in any order. |
| `StreamEnable.NoticeServes` | src/FtdiStreamStatic.cpp:329-375 | The notice exactly: it throws if and only if a reset or a submit does; otherwise every enable and disable request is served, no other transfer is touched, and no request is left. |
| `StreamEnable.EnableReadingServed` | src/FtdiStreamStatic.cpp:354-363 | A request to enable reading and its notice: if the step goes on, every read transfer of the descriptor with a buffer is in flight. |
| `StreamEnable.InitStarts` | src/FtdiStreamStatic.cpp:518-549 | A started loop has exactly the transfers it was given, each in flight if and only if it is to start and has something to do. |
| `StreamDrain.RunDrains` | src/FtdiStreamStatic.cpp:162-218 | Progress in any run with any other events: each time a write transfer comes back at least one byte of its queue was sent, and it is in flight exactly if there is more. |
| `StreamDrain.EverythingIsSent` | src/FtdiStreamStatic.cpp:162-218 | Once it came back as often as there are bytes in the queue, and the loop runs, the device has everything that was appended, and all of it is confirmed. |
| `StreamDrain.StartDrains` | src/FtdiStreamStatic.cpp:518-549 | A start with something to send puts the write transfer in flight. |
| `StreamDrain.AppendDrains` | src/FtdiStreamStatic.cpp:598-606 | Appended data and a descriptor that is ready put an idle write transfer in flight. |
| `StreamStop.OutcomeIff` | src/FtdiStreamStatic.cpp:564-638 | When a step throws, ends the loop or goes on, exactly; all transfers disabled ends a stopping loop at once. |
| `StreamStop.EventGoesOnIff` | src/FtdiStreamStatic.cpp:216-375 | When an event other than a completion or the timer stops the loop or throws, exactly; a descriptor of libusb that cannot be added or removed stops it. |
| `StreamStop.StopIsRecorded` | src/FtdiStreamStatic.cpp:564-638 | In every run a loop that has stopped running was told to stop, so that later requests are ignored. |
| `StreamStop.StoppingIsQuiet` | src/FtdiStreamStatic.cpp:78-638 | Once a loop does not run, in any run from there no transfer is submitted, nothing is handed over and nothing is confirmed. |
| `StreamCounters.TimerIff` | src/FtdiStreamStatic.cpp:279-314 | The timer event exactly: when it throws or stops the loop, and which counters are cleared. |
| `StreamCounters.ReadCounts` | src/FtdiStreamStatic.cpp:78-146 | What a read completion counts and hands over; a transfer that did not complete, or meets a stopping loop, hands over nothing. |
| `StreamCounters.WriteCounts` | src/FtdiStreamStatic.cpp:162-193 | What a write completion counts. |
| `StreamCounters.CountersAddUp` | src/FtdiStreamStatic.cpp:86-128 | While the loop runs the counters of a read transfer grow by the number of its completions and the length of all their payload. |
| `StreamRestart.WriteLevelIff` | src/FtdiStreamStatic.cpp:162-218 | A write completion leaves the device ahead of the confirmations if and only if it sent something and the loop was stopping, the transfer was cancelled, or the confirmation failed before the queue moved. |
| `StreamRestart.RunLevelIff` | src/FtdiStreamStatic.cpp:564-638 | In any run the device has exactly what was confirmed if and only if it had at the start and none of the completions of the run is such a one. |
| `StreamRestart.LifeLevelIff` | src/FtdiStreamStatic.cpp:433-638 | A life of a loop, from its start on, ends with the device ahead if and only if one of its completions is such a one. |
| `StreamRestart.RestartRepeats` | src/FtdiStreamStatic.cpp:162-218 | Over two lives of a loop the device gets again what it was ahead of the confirmations at the end of the first; once all is sent it has a prefix of what was appended if and only if no completion of the first life left it ahead. |
| `StreamRestart.SentAgain` | src/FtdiStreamStatic.cpp:179-184 | An input: a byte goes out just before its transfer is cancelled, and a second start sends it again. |
| `StreamLoop.FtdiStreamState.SubmitTransfer` | src/FtdiStreamStatic.cpp:742-770 | The method, with its early return, empty fill and exceptions, is the transition `Submit`. |
| `StreamLoop.FtdiStreamState.WriteCallback` | src/FtdiStreamStatic.cpp:162-218 | The callback is the transition `WriteCallback`, and for a transfer in flight it keeps the invariant of the object. |
| `StreamLoop.FtdiStreamState.ReadCallback` | src/FtdiStreamStatic.cpp:78-160 | The callback is the transition `ReadCallback`, and for a transfer in flight it keeps the invariant of the object. |
| `StreamLoop.FtdiStreamState.HandleEvents` | src/FtdiStreamStatic.cpp:586-591 | The completions of one libusb call, one after the other; the invariant is kept. |
| `StreamLoop.FtdiStreamState.EnableDescriptor` | src/FtdiStreamStatic.cpp:599-605 | The loop over the transfers of a descriptor is the transition `EnableRange`; the invariant is kept, also if a submit throws. |
| `StreamLoop.FtdiStreamState.CancelTransfers` | src/FtdiStreamStatic.cpp:365-373 | The cancel loop is the transition `CancelWhere`. |
| `StreamLoop.FtdiStreamState.EventNotice` | src/FtdiStreamStatic.cpp:316-375 | The event is the transition `OnNotice`, and keeps the invariant, also if it throws. |
| `StreamLoop.FtdiStreamState.EventTimer` | src/FtdiStreamStatic.cpp:279-314 | The event is the transition `OnTimer`, and keeps the invariant, also if it throws. |
| `StreamLoop.FtdiStreamState.ShutDownStep` | src/FtdiStreamStatic.cpp:609-630 | The end of a step of a stopping loop is the transition `ShutDown`. |
| `StreamLoop.FtdiStreamState.ProcessStep` | src/FtdiStreamStatic.cpp:564-638 | A step of the event loop is the transition `ProcessStep`, and keeps the invariant of the object. |
| `StreamLoop.FtdiStreamState.StopPoll` | src/FtdiStreamStatic.cpp:815-836 | The polling loop of `stop_poll` keeps the invariant, and comes to an end if its notice is seen and three more polls do not run into a time limit. |
| `StreamLoop.FtdiStreamState.CreateTransfers` | src/FtdiStreamStatic.cpp:522-549 | Creating, adding and submitting the transfers is `InitFrom`; from a checked setup the invariant holds afterwards. |
| `StreamApi.Construct` | src/FtdiStream.cpp:15-73 | The constructor finds a fault exactly if there is one, which one in every case, and otherwise the smallest packet sizes of all streams. |
| `StreamApi.FaultIff` | src/FtdiStream.cpp:21-60 | Each fault of a stream by its fields, in the order of the checks. |
| `StreamApi.TransfersCount` | src/FtdiStreamStatic.cpp:540-548 | Every stream gets as many read and write transfers as it asks for. |
| `StreamApi.TransfersMatch` | src/FtdiStreamStatic.cpp:522-548 | Each transfer has the descriptor and the buffer that its stream asks for. |
| `StreamApi.CheckedStreamsHaveOneWriter` | src/FtdiStream.cpp:54-56 | Streams that pass the checks never have two write transfers on one stream, which `WriteExactness` rests on. |
| `StreamApi.TwoWritersDuplicate` | src/FtdiStream.cpp:54-56 | Without that check there is a run in which the device gets an appended byte twice. |
| `StreamApi.FtdiStream.EnableReading` | src/FtdiStream.cpp:134-179 | When the request is ignored, rejected or recorded; a recorded one is in the set of enable requests and not in the other. |
| `StreamApi.FtdiStream.DisableReading` | src/FtdiStream.cpp:181-226 | The same for disabling. |
| `StreamApi.FtdiStream.ResetStream` | src/FtdiStream.cpp:228-263 | The same for a reset. |
| `Checksum.Compute` | src/ftdi.c:3477-3501 | The loop of both directions computes one fold over the words of the image. |
| `Checksum.RotateIsLeft` | src/ftdi.c:3500-3500 | The register rotates to the left: the top bit becomes the lowest. |
| `Checksum.KnownChecksum` | src/ftdi.c:3477-3501 | The checksum of two given words, as a number. |
| `Checksum.MixIsInjective` | src/ftdi.c:3499-3500 | Each step is a bijection in the register and in the word. |
| `Checksum.OneWordChanges` | src/ftdi.c:3477-3501 | Changing exactly one word of a sequence of any length changes the checksum. |
| `Checksum.DetectsOneWord` | src/ftdi.c:3678-3701 | A verified image with any one word changed, the checksum word included, does not verify. |
| `Checksum.WordRoundTrip` | src/ftdi.c:3503-3504 | A word stored low byte first is read back. |
| `Eeprom.SpecificStores` | src/ftdi.c:3126-3438 | The bytes a chip stores all lie in its fixed part, at different addresses, away from the header, the string pointers and the strings. |
| `EepromLayout.WriteAtIsBlock` | src/ftdi.c:3065-3081 | Writing through the masked 8-bit address replaces one contiguous block, for both sizes. |
| `EepromLayout.WriteStringWrites` | src/ftdi.c:3070-3082 | Pointer, length and descriptor of a string are in place. |
| `EepromLayout.WriteStringFrame` | src/ftdi.c:3070-3082 | Nothing else changes. |
| `EepromLayout.EndOfStrings` | src/ftdi.c:2947-2975 | Strings that pass the size check stay below the checksum; the bytes behind them run over it if and only if the chip is an FT232R or FT230X with less than four bytes to spare. |
| `EepromLayout.OverrunPlaces` | src/ftdi.c:3105-3114 | Which bytes are hit then: both checksum bytes and byte 0, or the first checksum byte. |
| `EepromLayout.FullLengthOverruns` | src/ftdi.c:3105-3114 | The string phase of an FT232R with full-length strings writes 2 and 3 over the checksum and the plug-and-play flag over byte 0. |
| `EepromLayout.FullLengthExists` | src/ftdi.c:2947-2975 | Such strings exist and pass the size check. |
| `EepromBytes.RoomIsToTheEnd` | src/ftdi.c:2947-2978 | Where the strings of each chip start, as a number, and that the room which is returned is what is left up to the last address for them. |
| `EepromBytes.StringAddresses` | src/ftdi.c:3039-3116 | The addresses and lengths of the three strings in the final image, as numbers: each starts where the one before it ends. |
| `EepromReadBack.ImageHasStrings` | src/ftdi.c:3039-3116 | All three strings are in the final image. |
| `EepromBytes.DescriptorBytes` | src/ftdi.c:3039-3116 | What that means: the length, the type of a string descriptor, and each character with a zero behind it. |
| `EepromBytes.PnpBytes` | src/ftdi.c:3105-3114 | The three plug-and-play bytes are right behind the strings of the final image, unless they overrun. |
| `EepromBytes.PowerBytes` | src/ftdi.c:3004-3017 | Bytes 8 and 9 of the final image: the top bit, the two attributes, and half the power limit, rounded towards zero. |
| `EepromBytes.GroupsOfHighSpeed` | src/ftdi.c:3257-3371 | The pin groups of an FT2232H and FT4232H in the final image: a drive strength that does not exist is the highest. |
| `EepromBytes.GroupsOf232H` | src/ftdi.c:3405-3421 | The same for an FT232H. |
| `EepromBytes.BytesOf230X` | src/ftdi.c:3429-3438 | What is stored for an FT230X. |
| `EepromBytes.EndpointSize` | src/ftdi.c:3199-3199 | The final image of an FT232R has its endpoint size at address 1. |
| `EepromBytes.PinsOfR` | src/ftdi.c:3209-3232 | The pins of an FT232R in the final image: a function that does not exist is replaced by the default of the pin. |
| `EepromBytes.PinsOf232H` | src/ftdi.c:2832-2850 | The same for an FT232H, which falls back to tristate. |
| `EepromLayout.StringsThenPnp` | src/ftdi.c:3105-3116 | The string phase is the three strings with the plug-and-play bytes on top. |
| `EepromLayout.NonOverlap` | src/ftdi.c:3039-3116 | For every chip and all strings that fit, the string phase changes nothing of the fixed part but the pointers, and not the checksum; in the two exceptional cases only the checksum bytes and byte 0. |
| `EepromLayout.FixedPartOnly` | src/ftdi.c:3118-3438 | The chip-specific phase touches neither the strings nor their pointers. |
| `EepromLayout.OverrunIsRewritten` | src/ftdi.c:3105-3504 | In those two cases every byte of the fixed part that is hit is written again afterwards. |
| `EepromLayout.OverrunIsHarmless` | src/ftdi.c:3105-3504 | The final FT232R image does not depend on the overrun. |
| `EepromReadBack.SealedVerifies` | src/ftdi.c:3678-3701 | A built image verifies, whatever is in it. |
| `EepromReadBack.StringsAreFinal` | src/ftdi.c:3039-3504 | No later phase touches the strings. |
| `EepromReadBack.FixedPart` | src/ftdi.c:3039-3124 | The fixed part is as if there were no strings. |
| `EepromReadBack.HeaderReaches` | src/ftdi.c:2992-3013 | Header bytes 2 to 9 reach the final image. |
| `EepromReadBack.TextsComeBack` | src/ftdi.c:3608-3676 | All three strings are decoded from a built image as the size bytes counted them. |
| `EepromFields.TwoGroups` | src/ftdi.c:3257-3291 | Two pin groups in one byte come back if and only if both drive strengths are 0 to 3. |
| `EepromFields.TwoPins` | src/ftdi.c:2834-2851 | Two pin functions in one byte come back if and only if the chip has both. |
| `EepromFields.Channel2232` | src/ftdi.c:2855-2893 | A channel type comes back if and only if it is one `type2bit` accepts; the flags beside it always do. |
| `EepromFields.MaxPowerRoundTrip` | src/ftdi.c:3012-3013 | The power limit comes back if and only if it is even and 0 to 510. |
| `EepromSpecific.Restores` | src/ftdi.c:3703-3816 | For each of BM, 2232C, R, 2232H, 4232H and 232H: the fields both directions handle come back if and only if their values fit. |
| `EepromRoundTrip.RoundTrip` | src/ftdi.c:3558-3816 | Decoding a built image returns 0 for every chip but the FT230X, both sizes, all fields whose strings pass the size check and any earlier buffer and fields; the header, the strings and the chip-specific fields come back if and only if the values fit. |
| `EepromRebuild.RebuildIff` | src/ftdi.c:2912-3816 | Building what was decoded from any built image gives the same image if and only if its values are not of a few that leave bits behind, and the plug-and-play flag, which is never decoded, is the same where it is not overwritten. |
| `EepromAgain.NaturalsRebuild` | src/ftdi.c:2834-3438 | Pin functions and drive strengths that are not negative are none of these values, nor is the channel type of a UART. |
| `EepromRebuild.ForgetsFifo` | src/ftdi.c:3718-3740 | An input: an FT232R in FIFO mode, whose channel type is not decoded. |
| `EepromRebuild.NoChipIff` | src/ftdi.c:3703-3816 | Decoding leaves no kind of memory chip, so that the next build returns -6, exactly for the AM and the BM. |
| `EepromBuffer.FtdiEeprom.PutStrings` | src/ftdi.c:3039-3116 | The writing loops with the wrapping 8-bit address leave the strings of the image. |
| `EepromBuffer.FtdiEeprom.Build` | src/ftdi.c:2912-3508 | All results of the function: -6, -1, the default size by the memory chip, and otherwise the room left, with the image in the buffer. A default size fits every memory chip of the kind that is known. |
| `EepromDecode.LoopStaysInBuffer` | src/ftdi.c:3619-3631 | The loop that copies a string reads inside the 256-byte buffer if and only if offset and length in the header fit, which the code does not check. |
| `EepromBuffer.FtdiEeprom.GetText` | src/ftdi.c:3608-3631 | The loop that copies every second byte decodes the string. |
| `EepromBuffer.FtdiEeprom.DecodeImage` | src/ftdi.c:3558-3816 | Return value and fields: 0 exactly if the checksum is right, and -1 otherwise, when the header and strings are changed already. |
| `EepromDamage.DecodeReports` | src/ftdi.c:3678-3701 | Decoding returns 0 if and only if the checksum is right, and -1 otherwise, with the fields of single chips as they were. |
| `EepromDamage.TextsAreDecoded` | src/ftdi.c:3576-3640 | Identifiers and strings come from the image whether or not the checksum is right. |
| `EepromDamage.DamagedImage` | src/ftdi.c:3678-3701 | A built image with exactly one word changed, the checksum word included, decodes to -1, and the fields of single chips stay as they were. |
| `EepromDamage.DamagedCell` | src/ftdi.c:3558-4660 | The same for a word of the memory chip that changes after the image was written and before it is read and decoded. |
| `EepromDevice.Device.Write` | src/ftdi.c:4624-4663 | For every size that reading or setting can leave, an unknown one included: the result for every point at which the device may go away, the preparatory requests included; the words written are exactly those before the first failing transfer, without the reserved ones of the FT230X. |
| `EepromDevice.Device.Read` | src/ftdi.c:4471-4486 | A complete read gives the contents, with the wrap-around of small chips. |
| `EepromDevice.Device.ReadEeprom` | src/ftdi.c:4471-4501 | The contents and the guessed size after a complete read; after a failing one the size is as before. |
| `EepromDevice.GuessByHalves` | src/ftdi.c:4488-4499 | The guessed size by equal halves and quarters, for contents that do not end in 0xff. |
| `EepromGuess.SizeOfBlank` | src/ftdi.c:4488-4499 | Reading a blank chip leaves the size unknown, unless the device is an FT232R or the search for the last 0xff finds one behind the buffer. |
| `EepromGuess.SizeOfSmallChip` | src/ftdi.c:4488-4499 | The contents of a 93x46 are never taken for those of a larger chip. |
| `EepromDevice.Device.Erase` | src/ftdi.c:4679-4735 | The magic word finds the size of a 93x46, 93x56 or 93x66, which is blank afterwards; result, contents and the number found for every failing transfer; an FT232R or FT230X is not touched. |
| `EepromDevice.EraseNumbers` | src/ftdi.c:4679-4735 | The return value for every failing transfer, in numbers, for each of the three memory chips. |
| `EepromDevice.WrittenAt` | src/ftdi.c:4646-4660 | In a chip with room for the image every word is where it was written, and reserved words are kept. |
| `EepromDevice.ReadBack` | src/ftdi.c:4471-4660 | Reading a written image back gives its bytes. |
| `EepromGuess.LargeGuess` | src/ftdi.c:4488-4499 | A built image of 256 bytes is read back with that size, for all chips but the FT232R, which always leaves 0x80. |
| `EepromGuess.GuessIff` | src/ftdi.c:4488-4499 | Reading leaves the size an image was built with if and only if it has 256 bytes and the chip is no FT232R, or it has 128 bytes and the chip is an FT232R or the rest of the memory chip repeats them. |
| `EepromGuess.DeviceRoundTrip` | src/ftdi.c:3558-4662 | Build, write, read and decode with the size that reading leaves. That is the size it was built with if and only if a condition on the image and the memory chip holds; and then the fields come back exactly under the conditions of the round trip. |
| `EepromGuess.WrongGuess` | src/ftdi.c:4488-4499 | An input: a BM image of 128 bytes in a blank larger chip is read back as one of 256 bytes, and another manufacturer comes back. |
| `EepromGuess.BlankIsNotDecodable` | src/ftdi.c:3619-3631 | With either size, the contents of an erased chip say that the strings are outside the buffer: decoding them reads past its end. |

## Left out

- Device discovery and opening, descriptor strings, kernel drivers, and the parsing in `FtdiContext`: libusb and
  libshaga plumbing.
- Single control transfers (flow control, modem lines, latency, bit mode, flushes): one request each. `DropWindow`
  is their effect on the leftover window.
- `ftdi_transfer_data_cancel`, which returns nothing. `ftdi_transfer_data_done` is modelled for reads; for writes only
  what it returns of a finished request.
- The get and set functions for EEPROM values, and printing.
- User data in `ftdi_eeprom_build`, and the FT230X checksum, which reads the device in the middle of the loop. The
  layout theorems and the writing loop cover the FT230X; the round trip does not.
- `EepromBuffer.FtdiEeprom.Build`: without the FT230X, user data, and sizes other than 0x80 and 0x100, for the reasons
  above; and the `|=` and `&=` on one byte of the fixed part are one store of the final byte.
- `EepromBuffer.FtdiEeprom.DecodeImage`: for images whose strings are inside the 256-byte buffer, exactly as
  `LoopStaysInBuffer` says; what the code reads behind it is not modelled. Characters are bytes; a zero byte inside a
  string, which C strings cannot hold, is a character like any other.
- `EepromRoundTrip.RoundTrip`: a missing string comes back as the empty one. The flag for plug-and-play is never
  decoded, nor are the channel type and the chip of an FT232R, whose `chip` is read from the byte of a pin function.
- `SyncRead.ReadData`: sizes and chunk sizes are not bounded by the width of an int, sizes are not negative, and a
  packet size of one, which makes the copy length negative, is excluded.
- `AsyncRead.AsyncEqualsSync`: for completed transfers that can be submitted again. Other statuses are steps of the
  reference request, and one request is outstanding per context.
- `AsyncRead.ReadDataCb`: with packets of two bytes, which have no payload, every callback moves the empty window two
  bytes on; what happens when it leaves the buffer is not modelled, so `AsyncDone.TransferDataDone` is without them.
- `StreamRestart.RestartRepeats`: transfers that libusb still owns when a loop is cleaned up are not modelled.
- `StreamRuns.ReadExactness`: for packets of at least two bytes, which the constructor does not check. The other
  theorems about runs also cover packets of one byte; with packets of no bytes `read_callback` does not end.
- epoll, event and timer descriptors, threads and mutexes, and the clock. Requests of other threads are steps between
  calls of `process_step`; request sets are sets; the hash order of enabling is an argument; the transfers of one
  descriptor, and the counters, are visited in the order of creation.
- Reset callbacks are modelled only as code that may throw.
- Memory allocation, pointer lifetimes and the error queue.
