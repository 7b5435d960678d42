# Verification of the scope's bus worker, decoders and analysis

A Dafny 4.11 model of the parts of the oscilloscope's application where order, wrap-around
and incremental state decide whether the result is right, with proofs of what they promise.
`dafny verify dfyconfig.toml` checks all of it.

What is modelled, a module to a component:

- **The acquisition worker and its stream ring.** Two processes share a ring: the worker reserves
  room, its DMA fills it, a commit makes the bytes readable; the app reads them in place and gives them back in its
  next request. `StreamRing` is the ring, the object the worker updates and the two processes as a state machine;
  `WorkerProtocol` the request and reply packets, the client, the serving loop and the socket between; `EventQueue`
  the queue of decoded events over a stream; `WorkerHandle` the handling of one request, and `WorkerCalls` what each
  call of the app gets of it, in numbers.
- **The eye diagram's density grid.** `EyeGrid` says what a line counts in which cell; `Eye` is the object with its
  counts, difference arrays and dense copy; `TieBuffer` the decimated buffer beside it.
- **The sliding-window band test** (`BandTest`), against the naive minimum and maximum of each window.
- **Decoders.** `Slicer` is the Schmitt slicer; `CanCrc`, `CanCode`, `CanFrame`, `CanLayout` and `CanReader` the CAN frame
  (sections 3.1.1 and 5 of the Bosch CAN Specification 2.0 Part A); `Edges`, `I2c`, `I2cEncoding`, `I2cSpans`, `I2cDeglitch`
  and `I2cDecode` the I2C decoder (sections 3.1.4 to 3.1.6 and 3.1.10 of NXP UM10204).
- **Packets.** `Packets` groups a byte stream's words by the rules `PacketRules` tells, with `QuickSelect` for the
  median; `ContentKey` and `PacketList` are the list that holds still.
- **Calibration.** The factory blob: its byte sum, its scramble and its table.

Code that changes state step by step is a class or a method here, proved against a function of the old state; the
properties are lemmas about those functions. A step of hardware, of the socket or of the clock is a parameter, or a step
of a state machine that may happen at any time.

Six results are about what the code does, not what one might expect of it:

- A peek answers 16 bytes however few were asked for; a call with less room than that fails the link for good, and no
  other operation's reply can (`WorkerHandle.PeekNeedsSixteen`, `WorkerHandle.OnlyAPeekOutgrows`). The app always asks
  for 16.
- The product is built for 32-bit ARM (`app/Makefile:56`), where the worker's counts are signed 32-bit numbers. A release
  of 2^31 bytes or more is not refused and leaves a count out of the ring's range (`StreamRing.ReleasesAreBounded` says
  exactly when, `StreamRing.OverdrawnPeek` shows one); a count or a recall size of 2^31 or more passes the size test,
  and with the operations `WorkerHandle.Crashes` names it ends the worker (`Handle` meets that exactly; every other is
  survived). The app asks for no such count (`WorkerHandle.AppAsksForAPayload`) and gives back only what it was lent.
- The bit sampled as SCL rises for a STOP or a repeated START is kept when seven or eight bits of a byte came before it:
  as the last bit of a byte never sent, or as an acknowledge (`I2cEncoding.ExtraBitIsDropped`,
  `I2cEncoding.SevenBitsMakeAByte`).
- The count of a loss mark also counts the events of the overflowing batch that did go in, and what an earlier stream
  had counted (`EventQueue.OverflowIsOvercounted` says exactly when it is right, `EventQueue.OneDroppedTwoCounted` shows
  a batch where it is not); the mark comes before the queued events.
- A shallow line of the eye diagram is drawn through a rounded slope: its column at a row's boundary may be one beside the
  exact line's, never more (`EyeGrid.ColumnIsNear`), and no column is left out for it.
- A list that has to forget, past 4096 messages, takes a message seen before for a new one: the bound on changes is for
  buses whose messages fit beside a capture's packets (`PacketList.FewChanges`; `PacketList.WhatIsForgotten` says exactly
  when something is forgotten).

## Model

| member | source | states |
|---|---|---|
| `StreamRing.NextKeepsInv` | app/internal/bus/worker_server_linux.go:76-88 | Whatever step the worker, the app or the drain takes, releases of under 2^31 bytes, bytes given back followed by the ring's contents are the bytes drained, in order; the ordinal at the head is the count of words given back modulo 2^64; and a look the app holds still reads as it did |
| `StreamRing.Run` | app/internal/bus/stream_ring_linux.go:74-138 | Over every interleaving of the two processes, no release of 2^31 bytes or more, bytes given back followed by the ring's contents are the bytes drained, and the ordinal is theirs |
| `StreamRing.Start` | app/internal/bus/stream_ring_linux.go:74-138 | A worker just started, whatever is in its ring of under 2^31 bytes, meets the invariant |
| `StreamRing.LoanUnchanged` | app/internal/bus/stream_ring_linux.go:110-139 | Over any steps of the worker and the drain up to the app's next peek, copying read or start or stop of the pump, the two slices a peek answered read, in the live ring, exactly what they read at first |
| `StreamRing.PeekLendsTheRest` | app/internal/bus/stream_ring_linux.go:91-108 | An answered peek lends exactly the drained bytes not yet given back, from their ordinal on, and takes as given back just the bytes released |
| `StreamRing.PeekIsAnswered` | app/internal/bus/stream_ring_linux.go:91-108 | A peek is answered if and only if the pump is on and shared, has no fault, and what is given back is whole words and no more than was drained and not given back; it is faulted exactly when only the fault stands against it |
| `StreamRing.ReadGivesTheOldest` | app/internal/bus/worker_server_linux.go:614-632 | A copying read with room for its ordinal is answered exactly while the pump is on and without a fault: with the oldest words not yet given back, from their own ordinal on, all of them or as many as no more fit behind the ordinal's 8 bytes |
| `StreamRing.PumpStartsAfresh` | app/internal/bus/worker_server_linux.go:226-230 | A pump started or stopped has nothing queued and counts from 0; words are answered just while it is on |
| `StreamRing.CommitDrainsTheRoom` | app/internal/bus/stream_ring_linux.go:74-86 | What a commit adds to the bytes drained is what lies in the two pieces reserved, the first before the second |
| `StreamRing.SignedRelease` | app/internal/bus/stream_ring_linux.go:95-100 | What the worker accepts and computes for any 32-bit release, compared, subtracted and reduced as a signed 32-bit number |
| `StreamRing.ReleasesAreBounded` | app/internal/bus/stream_ring_linux.go:95-100 | An accepted release drops just its own bytes if and only if it is under 2^31; every one over it leaves a count out of the queue's range |
| `StreamRing.OverdrawnPeek` | app/internal/bus/stream_ring_linux.go:95-100 | Such a release: four bytes queued, 2^32 - 4 given back, and eight are counted from before the ring's start |
| `StreamRing.AppNeverRefusesTheWorker` | app/internal/bus/stream_ring_linux.go:116-139 | What an answered peek says always passes the app's range check, and the app's slices of it hold the whole queue |
| `WorkerHandle.AppReadsThePeek` | app/internal/bus/stream_ring_linux.go:105-138 | What the app reads of the 16 bytes a peek answered is the ordinal, place and count the worker put there, and its two slices hold the whole queue |
| `StreamRing.FaultIsSticky` | app/internal/bus/worker_server_linux.go:124-188 | After an error nothing more is queued and no new look is lent until the pump is started again: a look held is the one held before, or gone |
| `StreamRing.SlicesReadTheQueue` | app/internal/bus/stream_ring_linux.go:131-138 | The app's two slices for a place and a length read the queued bytes in ring order, wrapped or not |
| `StreamRing.RoomIsFree` | app/internal/bus/stream_ring_linux.go:74-82 | No position a reservation hands out holds a queued byte |
| `StreamRing.RoomIsAfterTail` | app/internal/bus/stream_ring_linux.go:74-82 | A reservation's two pieces are the n positions after the tail and no others |
| `StreamRing.WriteAppends` | app/internal/bus/worker_server_linux.go:76-88 | A write leaves the queue as it was, followed by the bytes, and every position outside the room it reserved untouched |
| `StreamRing.WritePiece` | app/internal/bus/worker_server_linux.go:81-86 | One turn of the copy loop, up to the ring's end, is one step of the write as a whole |
| `StreamRing.ReadPiece` | app/internal/bus/worker_server_linux.go:625-629 | One turn of the copying read's loop takes the next queued bytes |
| `StreamRing.ReleaseDrops` | app/internal/bus/stream_ring_linux.go:98-100 | Giving back n bytes drops exactly the n oldest |
| `StreamRing.StreamWorker.Reserve` | app/internal/bus/stream_ring_linux.go:74-82 | Refused exactly when the ring has not the room; else two pieces of n positions in all, none of them queued |
| `StreamRing.StreamWorker.Commit` | app/internal/bus/stream_ring_linux.go:86 | The bytes that lay after the tail become the queue's last |
| `StreamRing.StreamWorker.Write` | app/internal/bus/worker_server_linux.go:76-88 | All of the bytes are appended, or none when they do not fit |
| `StreamRing.StreamWorker.StreamPeek` | app/internal/bus/stream_ring_linux.go:91-108 | The state and the answer of a peek in 32-bit arithmetic: its refusals, the fault that comes after the release, and what a release of 2^31 or more does; under that the queue loses just the released bytes |
| `StreamRing.StreamWorker.StreamWords` | app/internal/bus/worker_server_linux.go:614-632 | The copying read gives the queue's oldest whole words that fit and drops just them; how many is ReadGivesTheOldest's |
| `StreamRing.StreamWorker.CopyOut` | app/internal/bus/worker_server_linux.go:625-629 | The loop over the wrap copies the oldest bytes in order |
| `StreamRing.StreamWorker.PumpOn` | app/internal/bus/worker_server_linux.go:226-230 | Starting or stopping the pump empties the queue, clears the fault and restarts the ordinals |
| `WorkerProtocol.EveryCallAtMostOnce` | app/internal/bus/worker_server_linux.go:712-757 | Over every run of client, socket and worker: requests are executed in order, each at most once; a call that ends well, or with the device's error, was executed and its bytes are its own execution's; the replies written and the one held are one per execution |
| `WorkerProtocol.FailureIsFinal` | app/internal/bus/worker_linux.go:209-266 | After a transport failure no later call sends or ends anything; only what was on its way can still be executed |
| `WorkerProtocol.ReadReplyIsOwn` | app/internal/bus/worker_linux.go:245-265 | The reply the app reads is that of the call it waits for, and ends the call with that reply's text or bytes, or fails the link when it is longer than the room given |
| `WorkerProtocol.NextKeepsInv` | app/internal/bus/worker_server_linux.go:712-757 | Each step of the app, the worker or the socket keeps every outcome explained by an execution |
| `WorkerProtocol.RunKeepsInv` | app/internal/bus/worker_server_linux.go:712-757 | So does every run |
| `WorkerProtocol.FramingAgrees` | app/internal/bus/worker_server_linux.go:389-392 | Every packet the app sends is one the worker takes, and every reply built over it passes the app's header checks with its status and bytes |
| `WorkerProtocol.RequestFields` | app/internal/bus/worker_linux.go:223-231 | A request's packet reads back as every field of its call: operation, plane, register, value, count, epoch and parameters |
| `WorkerProtocol.RequestBytes` | app/internal/bus/worker_linux.go:223-231 | Each field of a call is in its own bytes of the packet, the low byte first |
| `WorkerProtocol.FramesAre` | app/internal/bus/worker_linux.go:245-255 | Byte by byte, what the app takes for the reply to its call, its sequence and operation and length, and what the worker takes for a request |
| `WorkerProtocol.WorkerClient.CallSplit` | app/internal/bus/worker_linux.go:209-266 | Which calls are refused unsent (over 65536 bytes, over 52 parameter bytes, or after a failure), when the sequence moves on, the packet sent, and how each reply or failure ends the call and the link |
| `WorkerProtocol.WorkerServer.Respond` | app/internal/bus/worker_server_linux.go:639-644 | The response buffer holds the request's header with status and length, then the data |
| `WorkerProtocol.WorkerServer.Turn` | app/internal/bus/worker_server_linux.go:714-757 | The reply held and the replies built are the replies written and the reply held after: none is lost or overwritten; a badly framed request stops the worker |
| `EventQueue.LossIsExplicit` | app/internal/bus/worker_server_linux.go:311-349 | Over every run of pumps, requests and mode switches of a stream: what went out and what waits is all that was drained, in order, if and only if there is no loss mark, no overflow and no fault of a malformed event; unmarked output never has a gap |
| `EventQueue.NextKeepsInv` | app/internal/bus/worker_server_linux.go:486-532 | Each pump, request or mode switch keeps that |
| `EventQueue.PushAllAppends` | app/internal/bus/worker_server_linux.go:336-348 | A batch goes in whole, or the queue faults and exactly the events before the one that found no room, or had no record, went in |
| `EventQueue.PushAllStops` | app/internal/bus/worker_server_linux.go:336-348 | Every event that went in is valid; a batch stops at the first that found no room, or is not valid where there was room |
| `EventQueue.OverflowIsOvercounted` | app/internal/bus/worker_server_linux.go:337-341 | The loss counted is never under the loss; it is exact if and only if nothing was counted before and the queue was full when the batch came |
| `EventQueue.OneDroppedTwoCounted` | app/internal/bus/worker_server_linux.go:337-341 | Such a batch: with one place free, of two events one goes in, one is dropped, and two are counted |
| `EventQueue.BegunTells` | app/internal/bus/worker_server_linux.go:514-532 | A transcript begins with all the queued events in order, with a loss mark exactly when the queue had overflowed |
| `EventQueue.TwoPieces` | app/internal/bus/worker_server_linux.go:495-500 | The two copies around the ring's end give the oldest events in order |
| `EventQueue.AskGivesTheOldest` | app/internal/bus/worker_server_linux.go:486-501 | A request takes the oldest events, 32 bytes each, all that wait or as many as no more fit; none after a fault, for no bytes or for part of an event |
| `EventQueue.StreamBegins` | app/internal/bus/worker_server_linux.go:352-384 | A stream begun has the epoch it was begun with, nothing queued and no fault |
| `EventQueue.FaultedPumpTakesNothing` | app/internal/bus/worker_server_linux.go:311-335 | After a fault a drain changes nothing; a drain that fails is a fault of the device and takes nothing |
| `EventQueue.MarkTellsTheCount` | app/internal/bus/worker_server_linux.go:514-532 | The mark of an overflow is the transcript's first line and tells the number counted, up to 2^31; the count then begins anew and nothing stays queued |
| `WorkerHandle.AcquisitionWorker.Pump` | app/internal/bus/worker_server_linux.go:311-349 | The ring, its count, the fault and the loss count after a drain, or the transcript |
| `WorkerHandle.AcquisitionWorker.TakeEvents` | app/internal/bus/worker_server_linux.go:486-501 | A request takes whole events, the oldest, of its own epoch, and none after a fault; every refusal |
| `WorkerHandle.AcquisitionWorker.LineMode` | app/internal/bus/worker_server_linux.go:502-532 | The switch to lines moves every queued event into the transcript and turns an overflow into a mark |
| `WorkerHandle.AcquisitionWorker.Stream` | app/internal/bus/worker_server_linux.go:352-384 | A stream stopped or begun anew has an empty queue and no fault; only a begun one is active |
| `WorkerHandle.AcquisitionWorker.ReadMany` | app/internal/bus/worker_server_linux.go:429-445 | The reads made on the bus are the selectors named, in order, up to and with the first that fails and never one that is not allowed; the words of all of them, or an error; a running stream's event port is never read |
| `WorkerHandle.AcquisitionWorker.WriteMany` | app/internal/bus/worker_server_linux.go:446-462 | The writes made are those named, in order, up to the first that fails or is not allowed, a write to the control register stopping or starting the stream in between; the FIFO controls are never written while a stream runs at that moment |
| `WorkerHandle.AcquisitionWorker.WriteOne` | app/internal/bus/worker_server_linux.go:462-478 | One write or none, on the bus and in the answer, and the stream it stops or starts; the FIFO controls are left alone while a stream runs |
| `WorkerHandle.AcquisitionWorker.ReadOne` | app/internal/bus/worker_server_linux.go:416-428 | One read or none, and its word; never of a running stream's event port |
| `WorkerHandle.AcquisitionWorker.PopMany` | app/internal/bus/worker_server_linux.go:479-485 | Bytes popped from a port that is not a running stream's; a negative even count that passes the tests ends the worker |
| `WorkerHandle.AcquisitionWorker.RecallShared` | app/internal/bus/worker_server_linux.go:566-591 | Which shared recalls are refused, which are answered 0 and which write: the record, whole or the part that came, goes into the idle ring's first bytes and nothing else of the worker changes; a non-zero answer means all of it is there; a size negative in 32 bits is not survived |
| `WorkerHandle.AcquisitionWorker.Handle` | app/internal/bus/worker_server_linux.go:389-645 | Every access made to the bus is recorded and none is a running stream's own port; of each operation, when it is refused, what it reads and writes, what it does to the event queue and to the stream ring and how long or just what it answers; an unknown one is refused; no reply that is not an error is longer than asked for, but a peek's 16 bytes; the worker does not survive the request exactly when Crashes says |
| `WorkerHandle.AcquisitionWorker.Dispatch` | app/internal/bus/worker_server_linux.go:401-637 | The same, over the fields of the request |
| `WorkerHandle.AcquisitionWorker.Registers` | app/internal/bus/worker_server_linux.go:416-485 | The accesses of the five register operations, one by one, and the stream after them |
| `WorkerHandle.AcquisitionWorker.HandleStream` | app/internal/bus/worker_server_linux.go:566-633 | The four operations on the stream ring: the worker after each, in every field, and the answer |
| `WorkerHandle.AcquisitionWorker.Answer` | app/internal/bus/worker_server_linux.go:405-634 | When a hello, transcript lines, a recall, a stack download or the panel's words are refused and how much of what came is answered; an operation that is none is refused |
| `WorkerCalls.CallIsItsPacket` | app/internal/bus/worker_server_linux.go:389-402 | What Handle promises of the packet of a call it promises of the call: its own operation, plane, register, value, count, epoch and parameters |
| `WorkerCalls.EndsTheWorker` | app/internal/bus/worker_server_linux.go:397-596 | The requests not survived, operation by operation |
| `WorkerCalls.ReadIsOfItsRegister` | app/internal/bus/worker_server_linux.go:416-428 | A read is made of the register and plane the call names, with its word answered low byte first, unless it is none or a running stream's event port |
| `WorkerCalls.WriteIsToItsRegister` | app/internal/bus/worker_server_linux.go:462-478 | A write is made of the call's value to the register and plane it names; writing the stream's control, and nothing else, stops the stream or starts one with the epoch the hardware gives |
| `WorkerCalls.PopIsOfItsPort` | app/internal/bus/worker_server_linux.go:479-485 | Bytes are popped of the port the call names, all of them or an error |
| `WorkerCalls.ReadsAreOfTheirRegisters` | app/internal/bus/worker_server_linux.go:429-445 | A list of reads is of the registers two bytes of the parameters each name, in order, and each word answered is its register's |
| `WorkerCalls.ReadsAreMade` | app/internal/bus/worker_server_linux.go:429-445 | The list is answered if and only if each is a register, none the running stream's event port, and the hardware answers all |
| `WorkerCalls.WritesAreToTheirRegisters` | app/internal/bus/worker_server_linux.go:446-462 | A list of writes is to the registers four bytes of the parameters each name, with the values they name, in order |
| `WorkerCalls.PlainWritesAreMade` | app/internal/bus/worker_server_linux.go:446-462 | A list that leaves the stream's control alone is made in full if and only if each is to a register that is not the running stream's and the hardware takes all |
| `WorkerCalls.EventsAreTheOldest` | app/internal/bus/worker_server_linux.go:486-501 | A call for events gets the oldest, as many as wait and fit, each its own 32 bytes of the answer; every refusal |
| `WorkerCalls.LineModeIsTurned` | app/internal/bus/worker_server_linux.go:502-532 | A call turns a running stream to lines, with all that was queued in them, or back to events |
| `WorkerCalls.PumpIsTurned` | app/internal/bus/worker_server_linux.go:609-613 | A call turns the pump on or off by its value's low bit, with nothing queued |
| `WorkerCalls.WordsAreTheOldest` | app/internal/bus/worker_server_linux.go:614-632 | A call for words gets their ordinal in 8 bytes and the oldest words, as many as wait and fit; every refusal |
| `WorkerCalls.PeekTellsTheRest` | app/internal/bus/stream_ring_linux.go:91-108 | A peek gives back what it says and answers the ordinal, the place and the length of what is left; every refusal |
| `WorkerCalls.SharedRecallFillsTheRing` | app/internal/bus/worker_server_linux.go:566-591 | A shared recall's size is the register's 16 bits over the value's; the record is in the ring's first bytes and the answer is the size, or 0 when the ring is the stream's or too small |
| `WorkerCalls.AnswersAreAsAsked` | app/internal/bus/worker_server_linux.go:405-634 | Hello, lines, a recall, a stack download and the panel: when each is refused and which bytes are answered; an unknown operation is refused |
| `WorkerHandle.ServedIsAStep` | app/internal/bus/worker_server_linux.go:389-645 | Whatever a request does to the stream worker, a release of 2^31 bytes or more apart, is nothing or one step of the two processes' runs, so that NextKeepsInv and Run are about the code's own handling; the words answered are those given back, and the place answered is what is lent |
| `WorkerHandle.ServedIsAQueueStep` | app/internal/bus/worker_server_linux.go:486-532 | So for the event queue and a stream's runs: the bytes answered are the events gone out |
| `WorkerHandle.SharedRecordIsWhole` | app/internal/bus/worker_server_linux.go:566-591 | A shared recall that answers other than 0 found the ring idle and shared, put the whole record in its first bytes and left the rest of it and of the worker alone |
| `WorkerHandle.SmallRequestsAreSurvived` | app/internal/bus/worker_server_linux.go:397 | A count and a size that fit a signed 32-bit number never end the worker |
| `WorkerHandle.LargeDownloadCrashes` | app/internal/bus/worker_server_linux.go:592-596 | A stack download of 2^31 bytes passes the size test and always does |
| `WorkerHandle.AppAsksForAPayload` | app/internal/bus/worker_linux.go:209-231 | The count the worker reads, signed, is the app's own and at most a payload: none the app sends is over 2^31 |
| `WorkerHandle.PeekNeedsSixteen` | app/internal/bus/stream_ring_linux.go:105-108 | An answered peek ends its call well if and only if the call has room for 16 bytes; with less the link fails for good |
| `WorkerHandle.OnlyAPeekOutgrows` | app/internal/bus/worker_linux.go:256-265 | The reply Handle gives to any other call is taken, whole |
| `WorkerHandle.ReplyIsTakenWhereItFits` | app/internal/bus/worker_linux.go:256-265 | A reply ends its call well if and only if it fits the room asked for; a longer one fails the link for good |
| `Eye.Eye.Fold` | app/internal/analysis/eye.go:600-657 | The drawing loop, its levels and one-row steps counted in place, leaves exactly the canvas of calling segment for every pair of samples, halved at every 1024th and at the end; no 32-bit count overflows, however a shallow slope is rounded |
| `Eye.Eye.Line` | app/internal/analysis/eye.go:621-642 | The two cases counted in place count exactly the cells segment would |
| `Eye.Eye.Segment` | app/internal/analysis/eye.go:691-736 | The line's marks, all of them, none outside the tile's reach, for any rounding of a shallow slope that is off by less than one position |
| `Eye.Eye.Steep` | app/internal/analysis/eye.go:706-715 | The carried remainder steps the column as the exact quotient does |
| `Eye.Eye.AddRun` | app/internal/analysis/eye.go:662-674 | The two writes, or the four around the wrap, make the row's differences those of one more run, within 32 bits |
| `Eye.Eye.CountRun` | app/internal/analysis/eye.go:755-761 | One more in each column of the run and in no other cell, in tile and differences together |
| `Eye.Eye.CountCell` | app/internal/analysis/eye.go:740-749 | One more in one cell, the same for a column and the one a UI on |
| `Eye.Eye.Materialize` | app/internal/analysis/eye.go:765-781 | dense is, cell by cell, counts and runs summed, the modular sums never wrapping a true count |
| `Eye.Eye.Halve` | app/internal/analysis/eye.go:291-304 | Past the limit every cell is halved with floor and the bound becomes the largest cell; else nothing changes |
| `Eye.Eye.ResultGrid` | app/internal/analysis/eye.go:792-800 | The window shows the tile's density twice side by side, and its largest cell |
| `Eye.RunRowIs` | app/internal/analysis/eye.go:662-674 | A run added to a row's differences adds one to the row's sums just where it covers |
| `EyeGrid.PutAllCounts` | app/internal/analysis/eye.go:740-761 | A cell's density is the number of marks that cover it, and no cell exceeds the bound |
| `EyeGrid.MarkCounts` | app/internal/analysis/eye.go:740-761 | A cell or a run counts one in just the cells of its row whose column is one of its columns modulo the tile, and nothing outside the rows or left of the tile |
| `EyeGrid.SumRunDiff` | app/internal/analysis/eye.go:659-674 | Summing the differences gives one more exactly in the run's columns modulo the tile, and the entry past the last column stays out of every sum |
| `EyeGrid.SteepColumns` | app/internal/analysis/eye.go:706-715 | A steep line has one cell in each row after its start, at column c0 + floor(k dc / dr), and ends on the line's end |
| `EyeGrid.SteepStep` | app/internal/analysis/eye.go:709-712 | The remainder carried is the quotient's, so the column needs no division |
| `EyeGrid.LevelIsDrawn` | app/internal/analysis/eye.go:691-699 | A level line is in its own row, in each column after its start or in its one column, and in no other cell |
| `EyeGrid.StepIsDrawn` | app/internal/analysis/eye.go:716-721 | A one-row step is in the start's row up to the middle column and in the end's row from it on, and in no other cell |
| `EyeGrid.SteepIsDrawn` | app/internal/analysis/eye.go:706-715 | A steep line is in each row after its start's to its end's, in the one column the even step gives, and in no other cell |
| `EyeGrid.ShallowIsDrawn` | app/internal/analysis/eye.go:722-735 | A shallow line is in each row from its start's to its end's, from where it passed in to where it passes out, within a column of the exact line |
| `EyeGrid.EndIsDrawn` | app/internal/analysis/eye.go:691-736 | Any line's end point is drawn, and nothing of it outside the rows and columns between its ends |
| `EyeGrid.SegmentMarksFit` | app/internal/analysis/eye.go:685-736 | A line makes at most rows + 2 counts, each with columns one run may have |
| `EyeGrid.SegmentCoversColumns` | app/internal/analysis/eye.go:694-735 | A line that is not steep leaves out no column after its start, however its slope is rounded |
| `EyeGrid.ColumnIsNear` | app/internal/analysis/eye.go:722-733 | Where a shallow line passes a row's boundary the rounded column is the exact line's or one beside it, and within the line's columns |
| `EyeGrid.FloatIsNear` | app/internal/analysis/eye.go:723-730 | A float within one of the exact quotient, cut to an integer, is such a rounding |
| `EyeGrid.ExactIsNear` | app/internal/analysis/eye.go:722-733 | The exact quotient is such a rounding, so the drawing without rounding is among those proved |
| `EyeGrid.HalvedBounds` | app/internal/analysis/eye.go:291-304 | Halving keeps the bound over every cell and brings one under 2^31 under 2^30 |
| `EyeGrid.HalvedCells` | app/internal/analysis/eye.go:291-304 | Past 2^30 every cell is halved with floor, else none |
| `EyeGrid.HalvedBoundIsLargest` | app/internal/analysis/eye.go:291-304 | The bound after a halving is the largest cell |
| `EyeGrid.DrawnBounds` | app/internal/analysis/eye.go:610-620 | Between two checks at most 1024 lines of rows + 2 counts are drawn: the bound stays under 2^30 + 1024 * 1026 |
| `EyeGrid.FoldedBounds` | app/internal/analysis/eye.go:653-657 | A fold ends with the bound back under 2^30 |
| `EyeGrid.ColumnSteps` | app/internal/analysis/eye.go:600-657 | A sample's column is its anchor at every 1024th sample, and between them that many steps on from it, round the tile |
| `EyeGrid.LinesJoinSamples` | app/internal/analysis/eye.go:610-650 | Each line goes from the sample before's place to the sample's own, to the right |
| `EyeGrid.FoldSteps` | app/internal/analysis/eye.go:600-657 | A fold draws the first sample's cell and then each line, and looks at the bound before every 1024th line and at the end |
| `EyeGrid.ShortBurstIsLeft` | app/internal/analysis/eye.go:600-620 | A burst of one sample, or of a UI or more to a sample, draws nothing |
| `EyeGrid.PutWraps` | app/internal/analysis/eye.go:744-747 | A column and the one a UI on are one cell |
| `TieBuffer.PushKeepsDecimated` | app/internal/analysis/eye.go:383-392 | The buffer is every decim-th value seen, from the first, whatever was pushed |
| `TieBuffer.Buffer.Push` | app/internal/analysis/eye.go:383-392 | So it stays through the halving at the cap, which doubles the stride |
| `BandTest.Within` | app/internal/analysis/compare.go:81-126 | -1 exactly when some judged sample lies outside the band's lowest low and highest high of its own window by more than the tolerance; else the number of judged samples |
| `BandTest.RuleIs` | app/internal/analysis/compare.go:81-126 | Which samples are judged, and when one is inside, in numbers: the window slack columns to either side, no gap in it, the ends left out, the tolerance on the lowest low and the highest high |
| `BandTest.RepeatingIs` | app/internal/analysis/compare.go:59-75 | Two captures repeat if and only if they have one length and a tolerance, and each has a judged midpoint and none outside the other's band |
| `BandTest.MidIs` | app/internal/analysis/compare.go:64-71 | A column's midpoint is half its extremes' sum, a gap where either is one |
| `BandTest.FrontsDecide` | app/internal/analysis/compare.go:117-122 | The deques' fronts are the window's true minimum and maximum |
| `BandTest.PushKeepsDeque` | app/internal/analysis/compare.go:96-103 | Cutting the back and entering an index keeps each deque rising and every index of the window dominated by one in it |
| `BandTest.DropKeepsDeque` | app/internal/analysis/compare.go:108-113 | So does cutting the front as the window moves |
| `BandTest.NotJudged` | app/internal/analysis/compare.go:117-119 | What the loop skips is not judged: a gap at either end or in the window |
| `BandTest.GapCountFront` | app/internal/analysis/compare.go:105-107 | The gap that leaves the window is the count's one less |
| `BandTest.RepeatsBand` | app/internal/analysis/compare.go:59-75 | Whether each capture's midpoints are inside the other's band, with at least one judged, and every refusal |
| `BandTest.RepeatsIsSymmetric` | app/internal/analysis/compare.go:72-74 | Exchanging the captures never changes the answer |
| `BandTest.ShiftedStaysInside` | app/internal/analysis/compare.go:46-58 | A copy moved by no more than the slack is never outside, at any tolerance |
| `BandTest.CountIsCovered` | app/internal/analysis/compare.go:72-74 | A positive count is a judged sample and no sample outside |
| `CanCrc.BurstsAreDetected` | app/internal/decode/decode_canfd.go:33-43 | Two bit streams of one length that differ, only within 15 consecutive bits, have different checks |
| `CanCrc.CodedBurstsAreDetected` | app/internal/decode/decode_canfd.go:33-43 | Two different streams of one length, each with its check behind it, never differ within 15 consecutive bits alone: wherever the burst lies, in the stream, in the check or across the two |
| `CanCrc.LowBitsAgree` | app/internal/decode/decode_canfd.go:544-559 | Checks whose last bits are sent alike have those low bits alike |
| `CanCrc.BurstAtTheEnd` | app/internal/decode/decode_canfd.go:33-43 | A burst running to the stream's end shows in as many of the check's last bits as it has had bits |
| `CanCrc.CrcIsLinear` | app/internal/decode/decode_canfd.go:33-43 | The difference of two checks is the check of the difference |
| `CanCrc.StepIsInjective` | app/internal/decode/decode_canfd.go:35-41 | One bit never makes two registers equal |
| `CanCrc.StepIsLinear` | app/internal/decode/decode_canfd.go:35-41 | A step of a difference is the difference of the steps |
| `CanCrc.StepKeepsLow` | app/internal/decode/decode_canfd.go:35-41 | A register's trailing zeros grow by at most one a bit |
| `CanCrc.BurstShows` | app/internal/decode/decode_canfd.go:33-43 | k bits into a burst, one of the register's k + 1 low bits is set |
| `CanCrc.DifferenceStays` | app/internal/decode/decode_canfd.go:33-43 | After the burst equal bits never cancel a difference |
| `CanCrc.CanCrc15` | app/internal/decode/decode_canfd.go:33-43 | The loop computes the check; that it is CAN's is CodedIsMultiple's and CheckIsTheOnlyOne's |
| `CanCode.CodedIsMultiple` | app/internal/decode/decode_canfd.go:29-43 | Any stream with its check behind it, as polynomials over two elements, is a multiple of x^15 + x^14 + x^10 + x^8 + x^7 + x^4 + x^3 + 1 |
| `CanCode.CheckIsTheOnlyOne` | app/internal/decode/decode_canfd.go:29-43 | No other 15 bits behind a stream make it one |
| `CanCode.FedIsQuotient` | app/internal/decode/decode_canfd.go:33-43 | The bits the register feeds back are the quotient, coefficient by coefficient |
| `CanFrame.FramesDecode` | app/internal/decode/decode_canfd.go:386-586 | Any classic frame, base or extended, data or remote, from its stuffed wire with any continuation, decodes to its identifier, length code and data, its check right, no stuffing error |
| `CanFrame.AcceptedFramesAreCoded` | app/internal/decode/decode_canfd.go:544-559 | On any wire: a frame accepted with its check right begins with the stuffing of its own body, the header of the identifier and kind decoded with the reserved bits as they came, the length code, the data, followed by that body's own check |
| `CanFrame.AcceptedFramesAreFrames` | app/internal/decode/decode_canfd.go:386-559 | The converse of FramesDecode, on any wire: an accepted classic frame's fields are a valid frame's, and the wire begins as that frame's own if and only if it is a base frame or its reserved bits came as they are sent |
| `CanFrame.SentOnce` | app/internal/decode/decode_canfd.go:133-147 | A wire is the stuffing of at most one stream of a length |
| `CanFrame.FramesAreFarApart` | app/internal/decode/decode_canfd.go:33-43 | Two different frames of one length never differ within 15 bits alone, stuff bits aside |
| `CanLayout.StuffingIs` | app/internal/decode/decode_canfd.go:133-147 | A bit that differs follows just where the wire's last five bits are equal, stuff bits among them |
| `CanLayout.BaseFrameLayout` | app/internal/decode/decode_canfd.go:396-470 | Where each field of a base frame is: 11 identifier bits, the remote request, two dominant bits, the length code, then each data byte, all most significant bit first |
| `CanLayout.ExtendedFrameLayout` | app/internal/decode/decode_canfd.go:470-500 | The same of an extended frame, its identifier in 11 and 18 bits about two recessive ones |
| `CanLayout.WireEnds` | app/internal/decode/decode_canfd.go:544-580 | After the stuffed frame and check come a recessive delimiter and the acknowledge |
| `CanLayout.FdFramesDecode` | app/internal/decode/decode_canfd.go:437-560 | A frame with a flexible data rate, from its stuffed bits, decodes to its identifier, length code and all its data, no check claimed |
| `CanLayout.FdLengths` | app/internal/decode/decode_canfd.go:45-69 | The data bytes of each length code, 12 to 64 past 8 |
| `CanFrame.NoSixEqual` | app/internal/decode/decode_canfd.go:133-147 | A stuffed wire never holds six equal bits in a row |
| `CanFrame.CleanReadIsStuffing` | app/internal/decode/decode_canfd.go:136-180 | On any wire: bits read without a stuffing error are those whose stuffing the wire is |
| `CanFrame.StuffingErrorIsSeen` | app/internal/decode/decode_canfd.go:143-145 | Where a stuff bit is due, a sixth equal bit is an error and nothing else is |
| `CanFrame.FieldReads` | app/internal/decode/decode_canfd.go:166-180 | A field of a stuffed wire reads as the number sent, stuff bits taken away, and is recorded as sent |
| `CanFrame.AckReads` | app/internal/decode/decode_canfd.go:561-580 | A stuff bit after the check is taken away before the delimiter; the acknowledge is read as it is |
| `CanReader.WireReader.NextBit` | app/internal/decode/decode_canfd.go:136-161 | One destuffed bit, and the reader after it, with the end of the record at either read |
| `CanReader.WireReader.ReadField` | app/internal/decode/decode_canfd.go:166-180 | A field, or nothing where the wire ends |
| `CanReader.DecodeOneFrame` | app/internal/decode/decode_canfd.go:386-586 | The frame at the start bit, by the branches of both identifiers, data, remote and FD; a valid frame's wire gives that frame |
| `Slicer.SliceChannel` | app/internal/decode/decode.go:764-804 | The edges of the run scan are the changes of the per-sample Schmitt trigger, all of them and no others, in time and in turn, none at sample 0, each placed where the line between its two codes meets the threshold |
| `Slicer.TriggerIs` | app/internal/decode/decode.go:764-804 | The trigger goes up at a tenth of the swing over the threshold, down at a tenth under, and stays between; the first level is by the threshold alone |
| `Slicer.CodeBounds` | app/internal/decode/decode.go:811-827 | For every code and threshold the integer comparison is the real one |
| `Slicer.EdgeIsNext` | app/internal/decode/decode.go:776-803 | The scan's stop is the trigger's next change |
| `Slicer.ScanAtLeast` | app/internal/decode/scan.go:26-67 | The first code at or over the bound from a place on, the record's length for none |
| `Slicer.ScanAtMost` | app/internal/decode/scan.go:72-110 | The first code at or under the bound from a place on, the record's length for none |
| `Slicer.Levels` | app/internal/decode/decode.go:510-523 | The edges give back every sample's level |
| `Slicer.LogicAt` | app/internal/decode/decode.go:832-845 | An edge-only line's level by search and parity, and the code against the threshold where a line has codes, at the nearest sample, -1 outside |
| `Slicer.RoundIsNearest` | app/internal/decode/decode.go:833 | The sample read is the nearest, of two as near the one farther from 0 |
| `Slicer.SliceAndRead` | app/internal/decode/decode.go:510-523 | Sliced and rebuilt from the edges, the levels are the trigger's at every sample |
| `Edges.ParityIsLevel` | app/internal/decode/decode.go:838-841 | The level after a number of alternating edges is the first level and that number's parity |
| `Edges.LevelAtAppend` | app/internal/decode/decode.go:510-523 | One more edge sets the level from its sample on |
| `I2c.Decoder.WalkEdges` | app/internal/decode/decode_i2c_spi.go:206-232 | The walk over both lines' edges, merged in time, makes the spans, tokens and bytes of stepping through every sample |
| `I2c.Decoder.WalkSamples` | app/internal/decode/decode_i2c_spi.go:199-205 | The walk over every sample |
| `I2c.Decoder.StepAt` | app/internal/decode/decode_i2c_spi.go:138-193 | One step: START, STOP, or a bit, an address, a byte or an acknowledge on the clock's rise |
| `I2c.QuietWalk` | app/internal/decode/decode_i2c_spi.go:207-209 | Up to the next edge of either line nothing happens |
| `I2cEncoding.TransfersDecode` | app/internal/decode/decode_i2c_spi.go:134-193 | Any list of transfers (START, repeated START, an address under 128 sent as seven bits and a direction bit, data bytes, each with its acknowledge, bytes broken off after up to six bits, STOP), each level held for any time, decodes to those addresses, directions, bytes and acknowledges |
| `I2cSpans.SpansAreTheTokens` | app/internal/decode/decode_i2c_spi.go:134-193 | The marks of a record, read in order, are its tokens: the same addresses, directions, bytes and acknowledges |
| `I2cSpans.SpansLie` | app/internal/decode/decode_i2c_spi.go:138-193 | Each mark lies where its token was: START and STOP where SDA changes under a high SCL, an acknowledge and a direction where SCL rises, a byte and an address from their first clock's rise to their eighth |
| `I2cSpans.BitIsTheCodesOwn` | app/internal/decode/decode_i2c_spi.go:152-160 | A bit is SDA's code against the threshold where SCL rises, not SDA's level |
| `I2cEncoding.ExtraBitIsDropped` | app/internal/decode/decode_i2c_spi.go:139-159 | The bit sampled as SCL rises for a STOP or a repeated START is left out of what is decoded if and only if fewer than seven bits of a byte came before it |
| `I2cEncoding.SevenBitsMakeAByte` | app/internal/decode/decode_i2c_spi.go:151-192 | A STOP after seven bits of a data byte makes a byte that was never sent; after eight the extra bit is its acknowledge |
| `I2cEncoding.ExtraBitIsTaken` | app/internal/decode/decode_i2c_spi.go:139-159 | A STOP or repeated START inside a transfer is the taking of one more bit and then the STOP or START, whatever the bit count |
| `I2cEncoding.ByteIsTaken` | app/internal/decode/decode_i2c_spi.go:151-192 | Eight bits and an acknowledge make an address with its direction, or a data byte |
| `I2cEncoding.WalkOfSqueeze` | app/internal/decode/decode_i2c_spi.go:207-209 | How long a level is held makes no difference to what is decoded |
| `I2cDeglitch.Deglitch` | app/internal/decode/decode_i2c_spi.go:75-91 | In place, each sample takes the level of the latest stretch that is no spike |
| `I2cDeglitch.NoSpikeIsLeft` | app/internal/decode/decode_i2c_spi.go:72-91 | Every change left is held for g samples, or to the record's end |
| `I2cDeglitch.SpikesComeOff` | app/internal/decode/decode_i2c_spi.go:72-91 | A line whose stretches all last g samples or reach an end of the record, with stretches of under g samples flipped and at least g that are not on either side, is given back clean |
| `I2cDecode.Decode` | app/internal/decode/decode_i2c_spi.go:96-240 | From the codes of both channels: the result is the step machine's over the trigger levels of every sample |
| `I2cDecode.SampleIs` | app/internal/decode/decode_i2c_spi.go:104-134 | A sample is SCL's trigger level, SDA's, and SDA's code against its threshold, up to the shorter record's end |
| `I2cDecode.CleanSampleIs` | app/internal/decode/decode_i2c_spi.go:194-205 | The same with each line's spikes taken off its own levels |
| `I2cDecode.OpenTransferIsMarked` | app/internal/decode/decode_i2c_spi.go:233-235 | A transfer still open is marked at the last sample |
| `I2cDecode.DecodeClean` | app/internal/decode/decode_i2c_spi.go:194-205 | The same over the levels with spikes taken off |
| `Packets.Grouper.Gaps` | app/internal/analysis/packets.go:210-265 | The packets are those of the one list of maximal parts: begun by a word, ended by an incomplete frame, a break or an idle over 1.5 byte times, with the part's bytes, marks, clamped extent and completeness |
| `Packets.PartsAreOne` | app/internal/analysis/packets.go:204-209 | Where packets begin and end is settled by the spans alone |
| `PacketRules.NextWordStays` | app/internal/analysis/packets.go:229-255 | A word that comes next is of the packet that goes on if and only if it begins no more than the idle after the furthest end of the packet's words |
| `PacketRules.ByteTimesApart` | app/internal/analysis/packets.go:204-229 | Two words of the median width apart by at most one and a half byte times are of one packet, by more of two |
| `PacketRules.IdleIs` | app/internal/analysis/packets.go:222-229 | The idle is one and a half byte times, a byte time the median word and a bit, the bit a ninth of the word when unknown; at least one sample |
| `PacketRules.CutsEndPackets` | app/internal/analysis/packets.go:236-243 | No packet goes on past an incomplete frame or a break |
| `PacketRules.CompleteIs` | app/internal/analysis/packets.go:236-264 | When a packet is complete, case by case, and where it lies |
| `PacketRules.ReachIs` | app/internal/analysis/packets.go:174-180 | A packet reaches over all its words |
| `PacketRules.BeforeIs` | app/internal/analysis/packets.go:230-257 | What a packet's start is judged by is the last word, break or incomplete frame before it |
| `PacketRules.EndBeforeIs` | app/internal/analysis/packets.go:238-257 | And the furthest of their ends |
| `PacketRules.WordsAre` | app/internal/analysis/packets.go:140-142 | Which spans are words, breaks and neither |
| `PacketRules.BytesAre` | app/internal/analysis/packets.go:181-190 | A word's one to three bytes, the highest first, each marked when the word is faulty |
| `Packets.WordsAreKept` | app/internal/analysis/packets.go:181-190 | Every word but a break is in the packets once and in order, with a mark to each byte |
| `Packets.WordsReadBack` | app/internal/analysis/packets.go:107-136 | The packets' bytes, taken in words of the chosen width, give back every word of up to 24 bits (8 on SPI) |
| `Packets.WidthLosesNothing` | app/internal/analysis/packets.go:123-135 | A word's bytes give it back if and only if it has at most 24 bits (8 on SPI) |
| `Packets.WordBytesHold` | app/internal/analysis/packets.go:186-189 | Most significant first, the bytes hold the word modulo 256 to their number |
| `Packets.WordWidth` | app/internal/analysis/packets.go:109-136 | The width chosen for the stream's largest word of up to 24 bits, one byte on SPI: the one WidthLosesNothing and WidthIsLeast are about |
| `Packets.WidthIsLeast` | app/internal/analysis/packets.go:109-136 | Any smaller width would lose some word of the stream |
| `Packets.EndSettles` | app/internal/analysis/packets.go:236-243 | A packet is closed complete exactly when its start was seen and what ended it left its end seen |
| `Packets.Grouper.Take` | app/internal/analysis/packets.go:234-261 | One span: the packets so far are those of the parts so far |
| `Packets.Grouper.Median` | app/internal/analysis/packets.go:211-220 | The median word width is the element a sort puts in the middle |
| `Packets.Grouper.Word` | app/internal/analysis/packets.go:184-190 | One word into the open packet, widening it |
| `Packets.Grouper.Close` | app/internal/analysis/packets.go:164-172 | The open packet ended: its extent inside the record, complete if both ends were seen |
| `QuickSelect.Select` | app/internal/analysis/packets.go:592-630 | A permutation of the input, whole or fractional, with the element a sort would put at k in its place and returned, every scan in bounds |
| `QuickSelect.Partition` | app/internal/analysis/packets.go:605-619 | From the sentinels on, the scans stop inside the range and split it about the pivot |
| `QuickSelect.MedianOfThree` | app/internal/analysis/packets.go:596-604 | The three are put in order, the elements outside the range untouched |
| `QuickSelect.Narrow` | app/internal/analysis/packets.go:620-627 | Either side of the split may be searched alone, and between them every element is placed |
| `QuickSelect.PlacedRanks` | app/internal/analysis/packets.go:589-592 | An element with none larger before it and none smaller after has the rank of its place |
| `QuickSelect.RankIsSorted` | app/internal/analysis/packets.go:589-592 | The one value of a rank is the one any sort puts there |
| `PacketList.FewChanges` | app/internal/analysis/packetlist.go:17-72 | From empty, captures that draw from a set M replace the rows at most |M|(|M| + 1)/2 times, so at most |M| * |M|, and |M| more for each capture put on screen unconditionally, whatever the user selects between them |
| `PacketList.ChangesAreBounded` | app/internal/analysis/packetlist.go:40-72 | From any state: each change spends one of a bounded number left, a capture put on screen gives back at most |M|, and nothing known is forgotten |
| `PacketList.OfferIsTaken` | app/internal/analysis/packetlist.go:40-59 | A capture offered becomes the rows if it has a complete packet and there are no rows, or it says more messages than they do, or one not known; else nothing changes |
| `PacketList.RunRemembers` | app/internal/analysis/packetlist.go:178-183 | What the list knows is exactly what it has seen |
| `PacketList.WhatIsForgotten` | app/internal/analysis/packetlist.go:178-183 | A replacement forgets nothing if and only if the memory and the rows fit in 4096, or the rows hold all it knew; a message forgotten replaces the rows when it comes again |
| `PacketList.KnownIsBounded` | app/internal/analysis/packetlist.go:178-183 | On any bus the memory holds no more than 4096 messages, or those on screen |
| `PacketList.SetFollows` | app/internal/analysis/packetlist.go:167-201 | The selection keeps its message through any replacement, on the copy nearest the old place, or keeps its place while the message is not listed |
| `PacketList.SelectFollows` | app/internal/analysis/packetlist.go:87-93 | A selected row's message is the one followed |
| `PacketList.SelectTakesTheRow` | app/internal/analysis/packetlist.go:87-103 | The row named, or the first or the last where there is none so named |
| `PacketList.NearestIs` | app/internal/analysis/packetlist.go:191-196 | The row chosen is a copy, none nearer, the first of two as near |
| `PacketList.NearestIsNear` | app/internal/analysis/packetlist.go:191-196 | In numbers: no copy is fewer rows away, and of two as far the one before |
| `PacketList.FoundIs` | app/internal/analysis/packetlist.go:144-160 | The packet found in a live capture is a complete copy, nearest in place among the complete packets; -1 if and only if there is none |
| `PacketList.PacketList.Update` | app/internal/analysis/packetlist.go:40-59 | The rows are replaced if and only if the capture has a complete packet and a message never seen or more messages than shown; else nothing changes |
| `PacketList.PacketList.Replace` | app/internal/analysis/packetlist.go:65-72 | The rows become the capture's unless they already are, positions and contents |
| `PacketList.PacketList.Select` | app/internal/analysis/packetlist.go:87-93 | The row nearest the one named, and its message followed from then on |
| `PacketList.PacketList.Selected` | app/internal/analysis/packetlist.go:98-103 | -1 for an empty list; while the followed message is listed, a row that holds it |
| `PacketList.PacketList.SelectedIn` | app/internal/analysis/packetlist.go:111-130 | The remembered answer is always the one a search would give |
| `PacketList.SamePackets` | app/internal/analysis/packetlist.go:224-245 | Equal if and only if positions and contents agree packet by packet |
| `PacketList.PositionsAre` | app/internal/analysis/packetlist.go:224-245 | Rows are a capture's when they lie where its packets do and have their keys |
| `PacketList.CompleteKeys` | app/internal/analysis/packetlist.go:206-219 | The complete packets' keys in order, and the number of different ones |
| `PacketList.NearestMessage` | app/internal/analysis/packetlist.go:144-160 | One pass finds that nearest copy |
| `ContentKey.KeyIsContent` | app/internal/analysis/packetlist.go:251-278 | Two packets have one key if and only if they agree in direction, address where present, fault, bytes and bad bytes |
| `ContentKey.KeyTells` | app/internal/analysis/packetlist.go:251-278 | Field by field: direction, whether addressed and to what, fault, bytes and which are bad |
| `ContentKey.KeyEnds` | app/internal/analysis/packetlist.go:251-278 | A key ends where its packet's does, whatever follows |
| `ContentKey.UvarintEnds` | app/internal/analysis/packetlist.go:263-265 | A number's bytes end by themselves |
| `ContentKey.PackedEnds` | app/internal/analysis/packetlist.go:267-276 | Flags packed by eight are told apart by their bytes |
| `ContentKey.AppendContentKey` | app/internal/analysis/packetlist.go:251-278 | The key is appended, the flags' last byte whether it is full or not |
| `Calibration.BlobIsAccepted` | app/internal/cal/cal.go:78-102 | Every payload's blob, scrambled and with the word 0 that makes the sum zero, is accepted and gives the payload back |
| `Calibration.AcceptedIsBlob` | app/internal/cal/cal.go:82-102 | Every blob accepted is the blob of the payload read from it |
| `Calibration.OneWrongByteIsRefused` | app/internal/cal/cal.go:85-88 | A blob with any one byte changed is refused |
| `Calibration.Parse` | app/internal/cal/cal.go:78-116 | Accepted if and only if the size and the sum are right, with the table of the payload behind the scramble |
| `Calibration.AcceptedIs` | app/internal/cal/cal.go:78-88 | A blob is accepted if and only if it has 2752 bytes whose first four, low byte first, make the sum of the rest zero in 32 bits |
| `Calibration.DescrambledAt` | app/internal/cal/cal.go:90-126 | Each payload byte is the source's mirrored one, complemented from 1374 of 2748 on and at 1, 3, 6, 10 and so on, but not where both |
| `Calibration.TableAt` | app/internal/cal/cal.go:104-114 | Record by record: two signed 16-bit numbers and a 32-bit gain, low byte first, at eight bytes a slot, twelve slots a channel |
| `Calibration.StoredTableIsRead` | app/internal/cal/cal.go:104-114 | A table whose records are stored slot by slot is the table read |
| `Calibration.ByteSum` | app/internal/cal/cal.go:131-148 | The plain byte sum modulo 2^32, for every length |
| `Calibration.LanesAdd` | app/internal/cal/cal.go:137-140 | 128 words of at most 510 a lane never carry into the next lane |
| `Calibration.FoldedLanes` | app/internal/cal/cal.go:142 | Folding four lanes gives their sum |
| `Calibration.NotTriangular` | app/internal/cal/cal.go:119-126 | Just the positions k(k + 1)/2, k at least 1, are complemented, each once |
| `Calibration.FlippedTwice` | app/internal/cal/cal.go:119-126 | Twice is not at all |
| `Calibration.DescrambledScrambled` | app/internal/cal/cal.go:90-102 | Descrambling inverts the scramble |
| `Calibration.Descrambled` | app/internal/cal/cal.go:90-102 | The payload behind scrambled bytes is the one whose scramble they are |
| `Calibration.TurnedBack` | app/internal/cal/cal.go:90-101 | The one pass that reverses and complements the back half is undone by its inverse, both ways |

## Left out

- System calls, memory mapping, DMA and bus register programming, scheduling, timeouts and the pump's pacing: a drain is bytes that arrive in the reserved room, an error may come with any drain.
- EventQueue: the line transcript's text, its flush and its encoding; a transcript here is the events and loss marks put into it, and a valid event is taken to read back from its 32 bytes.
- WorkerHandle.AcquisitionWorker.Handle: the bytes a recall, the panel, the stacking tile and the transcript answer are a parameter; when they are asked for, how many are answered and where they go is modelled.
- StreamRing.FaultIsSticky: the text of the fault, the measured rates and the longest gaps are not modelled.
- EyeGrid.FloatIsNear: that the float quotient is within one of the exact one is its premise; the float operations themselves are not modelled.
- Eye.Eye.Fold: column and row positions are given integers; their floating-point origin, the crossing figure, unit intervals, edge times, jitter and the result's other figures are not modelled; the flat row-major arrays are two-dimensional here.
- BandTest.Within: column extremes are reals or gaps; rounding and infinities are not modelled.
- CanReader.DecodeOneFrame: wire bits are given one after another, without the resynchronization to edges, the sample point or the data-phase rate; the spans and tokens of the text are not modelled; an FD frame ends after its data as in the code.
- Slicer.SliceChannel: threshold and swing are given reals, not taken from the histogram, and the word-at-a-time scans are plain ones with the same result.
- I2cDecode.Decode: the refusals (no swing, fewer than two clocks, too few samples a bit), inversion, text format and the clock period are not modelled.
- I2cDecode.DecodeClean: the width of a spike, an eighth of the median clock, is a parameter.
- Packets.Grouper.Gaps: the record length is given at least 1; the other protocols' groupers are rules for each protocol with nothing further to preserve.
- ContentKey.KeyIsContent: the note a layer adds is not part of the key.
- PacketList.PacketList.Reset: a reset is the empty list and adds nothing to prove.
- QuickSelect.Select: elements are reals, which a float's NaN is not among.
- Calibration.Parse: a gain is the bits of its float; the byte masks of the sum are written as remainders; reading files and the compiled defaults are left out.
- SPI, the other decoders, autodetection, trigger setup, rails, the display, the web interface, settings and the FPGA build: heuristics, tables or input and output.
