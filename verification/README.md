# Verified model of the cosmic-ray-tagger readout

This project models the path of an event from a raw board packet to a time-windowed fragment, and proves what that path
keeps. `dafny verify dfyconfig.toml` checks everything.

## The three components

**Fragment builder** (`BernZMQ_GeneratorBase`).
A worker thread splits each published message by board (`Demux`) and appends the events, their poll times and the counts
of refused events to three parallel rings per board (`FebBuffer`, `Worker`). A second thread looks for the next GPS
reference pulse, unwraps the 30-bit clock (`Unwrap`), lays out windows with seconds and nanoseconds carries (`Windows`),
numbers them (`SequenceIds`, with `Divisors` beside it), puts every event up to the pulse into a fragment (`Fill`), and
erases what it consumed, board after board (`Drain`). `FillTheorems` says what the fragments of one fill contain,
`OrderTest` which events of a batch are taken, `BoardIds` to which boards the inserts of a message go, `RunIds` what the ids
of a run are, `Ledger` what any sequence of inserts and fills keeps, and `RingProtocol` why the two threads may read and
write the rings partly without the lock.

**Driver** (`FEBDRV`).
`DriverBuffers` holds the step functions of the double buffer and `EventBuffers` the arrays and methods that refine them;
`DriverRuns` proves their invariant over every run of arrivals, sends and callbacks, `DriverTheorems` what follows from
it, `BufferReuse` how buffers go round, `SendOrder` when messages leave in order, `SlotCapacity` how many slots the arrays
need, and `Delivery` what the fragment builder offers each board of the events accepted. `PacketFormat` is the 76-byte
record, `PacketDecode` the decoding loop, `PollAccounting` the loss accounts, `LossCounts` what they hold after packets of
records, `PublishedLosses` what becomes of them downstream, `Receiver` the class that does all of this in place, and
`PacketCollect` the board reader's loop that drives it. `Trailer` is the record that closes a message and that `Demux`
and `FebBuffer` depend on.

**Codecs.**
`Bits` are machine words as bit sequences, `Gray` the two timestamp decoders, `BitStore` the bit getter and setter,
`ConfigFile` and `Configuration` the bitstream files and their way to the driver, `MacAddress` the board ids.

## How the model reads the code

- Fixed-width integers are written out in `Words`; conversions, wrap-around and two's complement differences are explicit.
- The scaling of event times uses exact rationals: an event at corrected time `c` lies beyond a window that ends `E`
  nanoseconds after the first second when `c * 1e9 > E * (1e9 - correction)`.
- The number of events at which a driver buffer is full is a parameter `full` with `1 < full`. The buffers of the model
  have `full + 1` slots, as the commented-out declaration in `FEBDRV.h:164` has it; the number that the array really has is
  a separate parameter `cap` of `SlotCapacity`, which says what the declaration in force (`FEBDRV.h:165`) leads to.
- The number of driver buffers is a parameter too; the original has two.
- `correctedtimebuffer` never gets elements, so it is scratch storage of one fill.
- The free callback is a step that may come whenever its buffer is in flight; received packets, poll times and the contents
  of memory behind a packet are arbitrary inputs.

## Where the code does not do what one might expect

Each of these has a lemma with the exact condition or a concrete run.

- The driver's arrays as declared have a tenth of the slots that the test for a full buffer (`FEBDRV.cc:701`) uses. Every
  write of every run stays in its buffer, and none hits a message in flight, exactly when there are more slots than events
  at which a buffer is full (`SlotCapacity.InBoundsIff`, `SlotCapacity.NeverHitsIff`); with the constants in force both
  fail (`SlotCapacity.DeclaredArrayOverruns`).
- Windows stay in place only up to one second, because each step makes one carry; the configuration check refuses only
  windows below a millisecond (`Windows.WindowsExactIff`). Beyond about 3.29 seconds adding the window size can wrap, and
  then the fill ends in an exception (`FillTheorems.ThrowsIff`, `FillTheorems.NeverThrows`).
- A fill scales by `1e9 - correction` whatever the number of seconds since the last pulse, so after two or more seconds a
  slow clock pushes the reference itself beyond the last window, and it is erased without being in a fragment
  (`FillTheorems.CompleteIff`, `FillTheorems.ReferenceCanBeLost`). A pulse within half a second of the last
  one with a poll inside one second erases everything and emits nothing (`FillTheorems.CompleteWithinHalfSecondIff`).
- The losses that the driver counts never get into the events it publishes, so fragments report no loss in a board and no
  overwritten event (`PublishedLosses.RunSilent`, `PublishedLosses.FragmentsSilent`).
- A board that does not answer makes the board before it pay its last count of overwritten events once more
  (`LossCounts.SilentBoard`).
- Without a free slot the decoding loop goes on after 12 bytes of the 76, and counts what it finds there as losses
  (`LossCounts.OverrunCounts`).
- A second run of a board in one message is recorded with an empty poll span (`Worker.SecondTurnIsEmpty`).
- A wraparound is never counted at the reference event itself (`Unwrap.UnwrapRecoversReference`).
- The order test looks only inside a batch, so a ring is in order exactly when every batch also starts in order after the
  last event before it (`FebBuffer.OrderAcrossBatches`, `OrderTest.RingOrderIff`).
- Sequence ids increase except across multiples of 2^32 milliseconds after the base (`SequenceIds.SequenceIdsIncreaseIff`).
- Windows of different boards can begin at different times and carry the same id, when the window size and a second have
  no common divisor of a millisecond or more (`SequenceIds.IdsAlwaysTellIff`, `SequenceIds.CollidingIds`).
- Messages can leave the driver out of order, because the last pending buffer wins: exactly when both buffers wait and the
  second was opened last (`SendOrder.SendsOldestIff`, `SendOrder.RunInOrderIff`, with the runs `SendOrder.OutOfOrderRun`
  and `SendOrder.BothFullRun`).
- An insert of no events stores the record at its position all the same, with 2^32 - 1 refused events
  (`FebBuffer.FebBuffer.Insert`).
- A board receives its events only if it agrees with the first configured one in all bytes of its address but the last
  (`BoardIds.GetDataFor`).
- A line of a bitstream file without an apostrophe counts its newline and terminator as bits
  (`ConfigFile.CharsWithoutComment`).
- The demultiplexer never inserts the last run of a message, so it depends on the trailer being there, and on there being
  events before it (`Demux.GetData`, `Demux.WithoutTrailer`).

## Model

| member | source | states |
|---|---|---|
| RingProtocol.StepKeeps | bernfebdaq/bernfebdaq/Generators/BernZMQ_GeneratorBase.cc:171-269 | every micro-step of producer and consumer keeps mutual exclusion, the relation of the three rings to one queue, the room seen by the unlocked check, and what a reader has seen, for any order of the appends |
| RingProtocol.StepRefinesQueue | bernfebdaq/bernfebdaq/Generators/BernZMQ_GeneratorBase.cc:225-269 | in every interleaving the three rings behave as one atomic queue: a batch appears whole at the append to the events ring, a prefix disappears whole, a size read is a snapshot |
| RingProtocol.PutNeverOverwrites | bernfebdaq/bernfebdaq/Generators/BernZMQ_GeneratorBase.cc:171-246 | a producer that saw room never overwrites an entry of any of the three circular buffers |
| RingProtocol.EraseWithinRings | bernfebdaq/bernfebdaq/Generators/BernZMQ_GeneratorBase.cc:261-269 | an erase never asks a ring for more entries than it holds |
| RingProtocol.RunInvariant | bernfebdaq/bernfebdaq/Generators/BernZMQ_GeneratorBase.cc:171-269 | the invariant holds in every state of every run |
| RingProtocol.OrderSafeIff | bernfebdaq/bernfebdaq/Generators/BernZMQ_GeneratorBase.cc:225-246 | an append order is safe for unlocked readers in all runs if and only if the events ring comes last, as the comment demands |
| RingProtocol.SourceOrderSafe | bernfebdaq/bernfebdaq/Generators/BernZMQ_GeneratorBase.cc:243-246 | with the original's order, a reader that read size n always finds entries 0..n-1 in all three rings, belonging to the same events |
| RingProtocol.UnsafeRun | bernfebdaq/bernfebdaq/Generators/BernZMQ_GeneratorBase.cc:225-227 | any other order has a run in which a reader finds a ring short |
| FebBuffer.GoodCount | bernfebdaq/bernfebdaq/Generators/BernZMQ_GeneratorBase.cc:198-223 | the scan takes a non-empty prefix of the batch that passes the order test and cannot be extended |
| OrderTest.CutAtFirstBreak | bernfebdaq/bernfebdaq/Generators/BernZMQ_GeneratorBase.cc:198-246 | by raw timestamps and flag bits: a batch is cut at the first event that steps back, neither after a reference pulse nor with the overflow flag, or jumps by more than the limit; that event and all after it are refused together and counted on the last entry taken, and every entry has the poll's span |
| OrderTest.WholeIff | bernfebdaq/bernfebdaq/Generators/BernZMQ_GeneratorBase.cc:198-223 | a batch is taken whole, with nothing refused, if and only if none of its events does |
| OrderTest.ClockIsTaken | bernfebdaq/bernfebdaq/Generators/BernZMQ_GeneratorBase.cc:198-223 | a batch sampled from a clock that restarts after each reference pulse and raises the overflow flag when it turns over, in steps up to the limit, is taken whole |
| OrderTest.AfterReference | bernfebdaq/bernfebdaq/Generators/BernZMQ_GeneratorBase.cc:209-212 | a reference pulse late in a second and an event early in the next one are both kept |
| OrderTest.RingOrderIff | bernfebdaq/bernfebdaq/Generators/BernZMQ_GeneratorBase.cc:198-223 | an insert keeps the ring free of such events if and only if the batch's first event continues the ring's last one |
| FebBuffer.FebBuffer.CountGood | bernfebdaq/bernfebdaq/Generators/BernZMQ_GeneratorBase.cc:198-223 | the scanning loop finds that prefix; `OrderTest` says which it is |
| FebBuffer.FebBuffer.Insert | bernfebdaq/bernfebdaq/Generators/BernZMQ_GeneratorBase.cc:160-259 | the rings grow by exactly the accepted prefix, its poll times and its refused count, and remember where the next poll starts; an insert of no events stores the record at its position and 0 - 1 refused |
| FebBuffer.FebBuffer.Erase | bernfebdaq/bernfebdaq/Generators/BernZMQ_GeneratorBase.cc:261-269 | exactly the oldest entries leave all rings together |
| FebBuffer.BatchWeight | bernfebdaq/bernfebdaq/Generators/BernZMQ_GeneratorBase.cc:243-246 | events of a batch are either stored or counted as refused |
| FebBuffer.OrderAcrossBatches | bernfebdaq/bernfebdaq/Generators/BernZMQ_GeneratorBase.cc:198-223 | an insert keeps the ring in order if and only if the batch starts in order after the ring's last event |
| FebBuffer.FebBuffer.NextSpan | bernfebdaq/bernfebdaq/Generators/BernZMQ_GeneratorBase.cc:229-241 | the poll span of a batch starts where the previous one ended, or at the start of this poll if there was none |
| FebBuffer.SpanOfTrailer | bernfebdaq/bernfebdaq/Generators/BernZMQ_GeneratorBase.cc:229-241 | read from the driver's trailer, the span is that of the poll in seconds and microseconds |
| FebBuffer.PushKeepsNewest | bernfebdaq/bernfebdaq/Generators/BernZMQ_GeneratorBase.cc:243-246 | a full ring forgets its oldest entries and keeps the newest, in order |
| Worker.MakeInserts | bernfebdaq/bernfebdaq/Generators/BernZMQ_GeneratorBase.cc:171-259 | all inserts of a message, each with the entries that the other thread erases while it waits for room: every board's rings are what its turns in order make of them, and the inserts stop only at one without room |
| Worker.GetData | bernfebdaq/bernfebdaq/Generators/BernZMQ_GeneratorBase.cc:278-316 | a message of events and a trailer for configured boards: every board takes its runs in turn |
| Worker.TurnsAccounted | bernfebdaq/bernfebdaq/Generators/BernZMQ_GeneratorBase.cc:243-269 | whatever is erased meanwhile, events inserted = growth of what the rings hold or count as refused + what was erased |
| Worker.MessageAccounted | bernfebdaq/bernfebdaq/Generators/BernZMQ_GeneratorBase.cc:278-316 | once all inserts of a message are made, a board accounts for exactly its own events of the message |
| Worker.TurnSpans | bernfebdaq/bernfebdaq/Generators/BernZMQ_GeneratorBase.cc:229-248 | the entries of an insert carry the span from the end of the last poll recorded to the end of this one, so successive spans abut, and entries before them keep theirs |
| Worker.SecondTurnIsEmpty | bernfebdaq/bernfebdaq/Generators/BernZMQ_GeneratorBase.cc:229-248 | a second run of a board in one message carries an empty span |
| Unwrap.CorrectedStep | bernfebdaq/bernfebdaq/Generators/BernZMQ_GeneratorBase.cc:353-366 | by raw times and flags: a turn of the clock is added at exactly those events that are no reference, step back and raise the overflow flag |
| Unwrap.FindReference | bernfebdaq/bernfebdaq/Generators/BernZMQ_GeneratorBase.cc:344-373 | the search stops at the first reference and leaves the unwrapped times of everything up to it |
| Unwrap.UnwrapMonotone | bernfebdaq/bernfebdaq/Generators/BernZMQ_GeneratorBase.cc:344-368 | unwrapped times of ordered events do not decrease before the first reference, and increase strictly across a wraparound |
| Unwrap.UnwrapAtReference | bernfebdaq/bernfebdaq/Generators/BernZMQ_GeneratorBase.cc:353-366 | at the reference the order is kept if and only if its raw time is not below its predecessor's |
| Unwrap.UnwrapWholePrefix | bernfebdaq/bernfebdaq/Generators/BernZMQ_GeneratorBase.cc:344-368 | all unwrapped times up to and including the reference are in order |
| Unwrap.UnwrapRecoversClock | bernfebdaq/bernfebdaq/Generators/BernZMQ_GeneratorBase.cc:344-368 | unwrapping recovers the true value of a free-running counter from its low 30 bits and the overflow flags |
| Unwrap.UnwrapRecoversReference | bernfebdaq/bernfebdaq/Generators/BernZMQ_GeneratorBase.cc:353-366 | at the reference it does so if and only if the counter did not turn since the previous event |
| Unwrap.CorrectionExact | bernfebdaq/bernfebdaq/Generators/BernZMQ_GeneratorBase.cc:377-380 | the wrapped 32-bit difference is the exact signed distance to the nearest second, at most half a second |
| Words.WrappedDifference | bernfebdaq/bernfebdaq/Generators/BernZMQ_GeneratorBase.cc:380 | subtracting two wrapped integers recovers the true difference whenever it fits |
| Windows.WindowsExactIff | bernfebdaq/bernfebdaq/Generators/BernZMQ_GeneratorBase.cc:421-431 | windows of any span stay at [kW, (k+1)W] if and only if W is at most one second |
| Windows.WindowExact | bernfebdaq/bernfebdaq/Generators/BernZMQ_GeneratorBase.cc:421-431 | with one carry per step, the end of window k is exactly (k+1)W after the first second, before and after its carry |
| Windows.WindowsAbut | bernfebdaq/bernfebdaq/Generators/BernZMQ_GeneratorBase.cc:493-495 | each window begins where the previous one ended, for every window size |
| Windows.WindowInOrderIff | bernfebdaq-core/bernfebdaq-core/Overlays/BernZMQFragment.cc:6-11 | for every window size, the end of window k is at or after its begin if and only if adding the window size to its begin does not wrap |
| Windows.CountGuard | bernfebdaq/bernfebdaq/Generators/BernZMQ_GeneratorBase.cc:421 | the loop admits window k if and only if it begins inside the span, so it makes ceil(S * 1e9 / W) windows |
| Windows.LastWindowEnd | bernfebdaq/bernfebdaq/Generators/BernZMQ_GeneratorBase.cc:421-495 | the last window reaches the last second, and ends on it if and only if W divides the span |
| SequenceIds.SequenceIdIsMillis | bernfebdaq/bernfebdaq/Generators/BernZMQ_GeneratorBase.cc:434 | the id is the whole number of milliseconds since the base, modulo 2^32 |
| SequenceIds.SequenceIdsIncreaseIff | bernfebdaq/bernfebdaq/Generators/BernZMQ_GeneratorBase.cc:413-434 | ids of consecutive windows increase if and only if no multiple of 2^32 ms lies between them |
| SequenceIds.SameIdIffSameMillisecond | bernfebdaq/bernfebdaq/Generators/BernZMQ_GeneratorBase.cc:413-434 | within one epoch of 2^32 ms after the base, windows of two boards carry the same id if and only if they begin in the same millisecond |
| SequenceIds.SameIdIffSameBegin | bernfebdaq/bernfebdaq/Generators/BernZMQ_GeneratorBase.cc:413-434 | for windows of up to a second that have a common divisor of at least a millisecond with a second, and within one epoch: two boards' windows carry the same id if and only if they begin at the same time |
| SequenceIds.IdsAlwaysTellIff | bernfebdaq/bernfebdaq/Generators/BernZMQ_GeneratorBase.cc:413-434 | a window size of up to a second lets ids tell begins apart in every epoch, for all boards and windows, if and only if it has such a common divisor |
| SequenceIds.CollidingIds | bernfebdaq/bernfebdaq/Generators/BernZMQ_GeneratorBase.cc:413-434 | two windows of 1.5 ms that begin at different times and carry the same id |
| RunIds.FirstWindowSecond | bernfebdaq/bernfebdaq/Generators/BernZMQ_GeneratorBase.cc:383-406 | the first window begins in the second in which the reference's poll began, or one earlier if and only if the poll spans one second less than the clock counted |
| RunIds.FirstFillIds | bernfebdaq/bernfebdaq/Generators/BernZMQ_GeneratorBase.cc:413-434 | the first fill of a run sets the base ten seconds before its first window; window k of up to a second has the id 10000 and its begin in whole milliseconds, modulo 2^32, and the base is not after the first begin if and only if that is in second 10 or later |
| RunIds.RunCounts | bernfebdaq/bernfebdaq/Generators/BernZMQ_GeneratorBase.cc:413-434 | in the call that builds the first fragments of a run and in all later ones, the ids of all boards count from 10000 in the second of the run's first window |
| RunIds.IdsGrow | bernfebdaq/bernfebdaq/Generators/BernZMQ_GeneratorBase.cc:434 | over the first 2^32 - 10000 ms of a run, a window that begins a millisecond or more later has a larger id, and none is below 10000 |
| Fill.CanFillIff | bernfebdaq/bernfebdaq/Generators/BernZMQ_GeneratorBase.cc:332-373 | a fill does something if and only if there are more than two events, or the buffer is being cleared, and one of them has the reference bit |
| Fill.CutIsFirstBeyond | bernfebdaq/bernfebdaq/Generators/BernZMQ_GeneratorBase.cc:450-475 | the scans that resume where the last one stopped find, for every window, the first of all events beyond its end |
| Fill.Generator.CollectWindow | bernfebdaq/bernfebdaq/Generators/BernZMQ_GeneratorBase.cc:450-475 | one scan: where it stops, its four counters, and the board's overwrite counter |
| Fill.Generator.BuildFragment | bernfebdaq/bernfebdaq/Generators/BernZMQ_GeneratorBase.cc:433-481 | one fragment: window, id, counters and payload |
| Fill.Generator.Calibrate | bernfebdaq/bernfebdaq/Generators/BernZMQ_GeneratorBase.cc:375-406 | the correction and the second before the first window |
| Fill.Generator.EmitWindows | bernfebdaq/bernfebdaq/Generators/BernZMQ_GeneratorBase.cc:408-496 | for every window size, the loop over windows emits exactly the fragments of all windows of the span, and ends in an exception if and only if a window's end is before its begin |
| Fill.Generator.FillFragment | bernfebdaq/bernfebdaq/Generators/BernZMQ_GeneratorBase.cc:324-506 | for every window size: whether it fills, the fragments, the entries erased, the overwrite counter and the shared sequence base; whether it ends in an exception; nothing changes when it does not fill; `RunIds.FirstFillIds` says which base it sets |
| FillTheorems.PayloadsPartition | bernfebdaq/bernfebdaq/Generators/BernZMQ_GeneratorBase.cc:421-496 | for every input, the payloads of a fill concatenate to a prefix of the events up to the reference, without gap, duplicate or reordering |
| FillTheorems.CountersAddUp | bernfebdaq/bernfebdaq/Generators/BernZMQ_GeneratorBase.cc:450-475 | the fragments' counters add up to the counters of that prefix |
| FillTheorems.MissedIsSum | bernfebdaq/bernfebdaq/Generators/BernZMQ_GeneratorBase.cc:466-469 | the losses counted for events are the sum of those that they carry |
| FillTheorems.FragmentCalibration | bernfebdaq/bernfebdaq/Generators/BernZMQ_GeneratorBase.cc:377-443 | every fragment of a fill carries the distance of the reference from the nearest second, at most half a second, and the board's id |
| FillTheorems.StoredCountersAddUp | bernfebdaq/bernfebdaq/Generators/BernZMQ_GeneratorBase.cc:466-470 | and the 32-bit fields that hold them add up to it modulo 2^32 |
| FillTheorems.ThrowsIff | bernfebdaq-core/bernfebdaq-core/Overlays/BernZMQFragment.cc:6-11 | a fill ends in an exception if and only if, before the end of the poll, adding the window size to the begin of a window wraps |
| FillTheorems.NeverThrows | bernfebdaq/bernfebdaq/Generators/BernZMQ_GeneratorBase.cc:421-496 | with windows of up to 2^32 - 10^9 ns none does |
| FillTheorems.OverwrittenTelescopes | bernfebdaq/bernfebdaq/Generators/BernZMQ_GeneratorBase.cc:466-470 | overwrites reported are at least the net growth of the board's counter, and exactly that if and only if the counter never went back |
| FillTheorems.FragmentsVerify | bernfebdaq-core/bernfebdaq-core/Overlays/BernZMQFragment.cc:65-73 | every fragment passes Verify |
| FillTheorems.FragmentWindow | bernfebdaq/bernfebdaq/Generators/BernZMQ_GeneratorBase.cc:421-496 | fragment k announces [kW, (k+1)W], passes CheckTimeWindow, has the id of its begin, and abuts fragment k+1 |
| FillTheorems.PayloadNotBeyond | bernfebdaq/bernfebdaq/Generators/BernZMQ_GeneratorBase.cc:450-460 | no event is beyond the end of its window, whatever the times |
| FillTheorems.PayloadIffInWindow | bernfebdaq/bernfebdaq/Generators/BernZMQ_GeneratorBase.cc:450-496 | with non-decreasing times, a fragment holds an event if and only if its scaled time is in that window |
| FillTheorems.CompleteIffAllWithin | bernfebdaq/bernfebdaq/Generators/BernZMQ_GeneratorBase.cc:421-499 | nothing is erased unplaced if and only if there is a window and no scaled time is beyond the last one |
| FillTheorems.CompleteIffReferenceWithin | bernfebdaq/bernfebdaq/Generators/BernZMQ_GeneratorBase.cc:421-499 | with non-decreasing times, if and only if the reference is not beyond the last window |
| FillTheorems.CompleteIff | bernfebdaq/bernfebdaq/Generators/BernZMQ_GeneratorBase.cc:377-499 | for every number of seconds since the last pulse, every poll length and every window of up to a second: nothing is lost if and only if there is a window and the correction, times the seconds covered less one, is at most the time covered beyond the seconds elapsed |
| FillTheorems.CompleteAfterOneSecond | bernfebdaq/bernfebdaq/Generators/BernZMQ_GeneratorBase.cc:375-499 | one second after the previous pulse, all events up to the reference are placed |
| FillTheorems.CompleteWithinHalfSecondIff | bernfebdaq/bernfebdaq/Generators/BernZMQ_GeneratorBase.cc:377-421 | within half a second, nothing is lost if and only if the poll crossed a second |
| FillTheorems.CompleteAfterManySecondsIff | bernfebdaq/bernfebdaq/Generators/BernZMQ_GeneratorBase.cc:377-458 | the case of several seconds that the windows cover exactly: nothing is lost if and only if the board's clock did not run slow |
| FillTheorems.ReferenceCanBeLost | bernfebdaq/bernfebdaq/Generators/BernZMQ_GeneratorBase.cc:445-499 | well-timed input whose reference pulse is erased without being in a fragment |
| Ledger.LedgerBalances | bernfebdaq/bernfebdaq/Generators/BernZMQ_GeneratorBase.cc:201-499 | over every sequence of inserts and fills: events offered = buffered + pending refused counts + events and refused counts reported by fragments + what incomplete fills erased |
| Ledger.NothingLostIff | bernfebdaq/bernfebdaq/Generators/BernZMQ_GeneratorBase.cc:450-499 | the last term is zero if and only if every fill of the run placed all it erased |
| Ledger.FillBalance | bernfebdaq/bernfebdaq/ArtModules/BernZMQDump_module.cc:93-98 | a fill reports or loses exactly what it erases, in the quantity that is compared across boards |
| Drain.DrainBoard | bernfebdaq/bernfebdaq/Generators/BernZMQ_GeneratorBase.cc:543-545 | the inner loop ends, and its fragments, rings, counter and base are those of draining the board |
| Drain.GetNext | bernfebdaq/bernfebdaq/Generators/BernZMQ_GeneratorBase.cc:542-546 | all boards in turn: fragments in board order, the sequence base passed on from board to board, and every board left drained, with the rings and the overwrite counter of its own draining |
| Drain.DrainLeaves | bernfebdaq/bernfebdaq/Generators/BernZMQ_GeneratorBase.cc:332-373 | afterwards fewer than three events or no reference event is left |
| Drain.DrainedReferences | bernfebdaq/bernfebdaq/Generators/BernZMQ_GeneratorBase.cc:344-373 | draining removes exactly one reference event per successful fill |
| Drain.OneReferencePerFill | bernfebdaq/bernfebdaq/Generators/BernZMQ_GeneratorBase.cc:344-366 | a fill takes the first reference and everything before it, and no other reference |
| Drain.DrainedAtReference | bernfebdaq/bernfebdaq/Generators/BernZMQ_GeneratorBase.cc:499 | it ends right after a reference event |
| Drain.DrainDrops | bernfebdaq/bernfebdaq/Generators/BernZMQ_GeneratorBase.cc:499 | it removes exactly the oldest entries of all rings |
| Drain.DrainPayloads | bernfebdaq/bernfebdaq/Generators/BernZMQ_GeneratorBase.cc:421-499 | when every fill is complete, the payloads of all its fragments are exactly the events removed, in order |
| Drain.DrainsIff | bernfebdaq/bernfebdaq/Generators/BernZMQ_GeneratorBase.cc:332-373 | something is drained if and only if there are more than two events and a reference pulse among them |
| Drain.DrainTallies | bernfebdaq/bernfebdaq/Generators/BernZMQ_GeneratorBase.cc:450-499 | across all fills of a board, complete fills report the counters of exactly the events removed, and the board's overwrite counter goes on where they end |
| Drain.DrainReports | bernfebdaq/bernfebdaq/Generators/BernZMQ_GeneratorBase.cc:466-470 | by raw fields: the sum of the losses that the events carry, their refused neighbours and number, and the growth of the overwrite counter if it never went back |
| Drain.DrainReportsCarried | bernfebdaq/bernfebdaq/Generators/BernZMQ_GeneratorBase.cc:450-499 | complete fills or not, the fragments report the losses of the events they carry and the growth of the overwrite counter along these alone |
| Drain.DrainOfBoard | bernfebdaq/bernfebdaq/Generators/BernZMQ_GeneratorBase.cc:436-481 | all fragments of a board carry its id and announce the events they hold |
| Drain.BoardOrder | bernfebdaq/bernfebdaq/Generators/BernZMQ_GeneratorBase.cc:542-546 | the fragments come board by board, in the order of the boards |
| Drain.DrainNumbered | bernfebdaq/bernfebdaq/Generators/BernZMQ_GeneratorBase.cc:413-434 | once set, the sequence base stays the same while a board is drained, and numbers all its fragments |
| Drain.OneBase | bernfebdaq/bernfebdaq/Generators/BernZMQ_GeneratorBase.cc:413-434 | all fragments of all boards are numbered from one base, the one there was or else the one that the first board able to fill sets, and it stays in force, provided that it is not 0, which counts as not set |
| Demux.GetData | bernfebdaq/bernfebdaq/Generators/BernZMQ_GeneratorBase.cc:283-316 | for every message of byte-sized board numbers, with or without a trailer, the inserts are maximal runs of one board each, in order, covering everything but the last run; a trailer alone makes an insert of no records |
| BoardIds.GetDataFor | bernfebdaq/bernfebdaq/Generators/BernZMQ_GeneratorBase.cc:283-316 | told by six-byte addresses: every insert goes to the board that shares all bytes but the last with the first configured one and has the records' board number; a board receives exactly its own events of the message if it is one of these, and nothing otherwise |
| BoardIds.RunsReachBoards | bernfebdaq/bernfebdaq/Generators/BernZMQ_GeneratorBase.cc:286-312 | the same of any calls with the promise of the loop |
| Demux.TrailerIsLastRun | bernfebdrv/bernfebdrv/FEBDRV.cc:743-752 | with a trailer the last run is the trailer alone, so the inserts cover exactly the events |
| Demux.WithoutTrailer | bernfebdaq/bernfebdaq/Generators/BernZMQ_GeneratorBase.cc:292-316 | without a trailer the board of the last run loses exactly that run |
| Demux.DeliveredIsOfBoard | bernfebdaq/bernfebdaq/Generators/BernZMQ_GeneratorBase.cc:283-316 | the runs given to a board concatenate to that board's subsequence of the message, and the trailer goes to none |
| Trailer.TrailerRoundTrip | bernfebdrv/bernfebdrv/FEBDRV.cc:743-751 | the fragment builder reads from its byte offsets exactly the count and poll times that the driver packed |
| Trailer.TrailerWords | bernfebdrv/bernfebdrv/FEBDRV.cc:743-751 | where the count and the two times lie in the trailer's ADC words |
| DriverBuffers.SlotInRange | bernfebdrv/bernfebdrv/FEBDRV.cc:689-714 | a slot handed out is the next free one of a buffer that is being filled or empty, and inside a buffer of full + 1 slots; `SlotCapacity.InBoundsIff` has the condition for other lengths |
| EventBuffers.Buffers.constructor | bernfebdrv/bernfebdrv/FEBDRV.cc:689-725 | all buffers start empty |
| EventBuffers.Buffers.GetNextEvent | bernfebdrv/bernfebdrv/FEBDRV.cc:689-716 | the slot handed out and the new counts and statuses |
| EventBuffers.Buffers.Write | bernfebdrv/bernfebdrv/FEBDRV.cc:918-931 | writing through the pointer changes that slot and nothing else |
| EventBuffers.Buffers.SendData | bernfebdrv/bernfebdrv/FEBDRV.cc:728-758 | the last pending buffer is closed with a trailer, marked in flight and sent as it stands, or freed at once when the message is not taken; the result is ambiguous for buffer 0 |
| EventBuffers.Buffers.FreeSubbuffer | bernfebdrv/bernfebdrv/FEBDRV.cc:719-725 | the callback sets the status and the count of its buffer to 0, and changes no other |
| DriverRuns.ArriveKeeps | bernfebdrv/bernfebdrv/FEBDRV.cc:689-716 | an arrival keeps the invariant of buffers, runs and messages |
| DriverRuns.SendKeeps | bernfebdrv/bernfebdrv/FEBDRV.cc:728-758 | so does a send: the message is the run's events in order and one trailer with their number |
| DriverRuns.FreeKeeps | bernfebdrv/bernfebdrv/FEBDRV.cc:719-725 | so does the callback |
| DriverRuns.RunKeeps | bernfebdrv/bernfebdrv/FEBDRV.cc:689-758 | over all runs: at most one buffer is filling; empty means 0 events, filling 1 to full - 1, full exactly full, in flight events + 1; accepted events split into consecutive runs, each in one pending buffer or sent once |
| DriverTheorems.Conservation | bernfebdrv/bernfebdrv/FEBDRV.cc:689-758 | events accepted = events in filling or full buffers + events in messages sent |
| DriverTheorems.RunsAreSomewhere | bernfebdrv/bernfebdrv/FEBDRV.cc:689-758 | each unsent run is what exactly one pending buffer holds; each sent run is its events and one trailer |
| DriverTheorems.PendingBanksHaveRuns | bernfebdrv/bernfebdrv/FEBDRV.cc:689-716 | every pending buffer holds an unsent run |
| DriverTheorems.InFlightFrozen | bernfebdrv/bernfebdrv/FEBDRV.cc:719-758 | with buffers of full + 1 slots, a message in flight is not changed by anything until its buffer is freed; `SlotCapacity.NeverHitsIff` has the condition for other lengths |
| DriverTheorems.SlotHandedOutOnce | bernfebdrv/bernfebdrv/FEBDRV.cc:689-725 | no slot is handed out twice before its buffer is freed, and none while in flight |
| BufferReuse.CallbackGivesRoom | bernfebdrv/bernfebdrv/FEBDRV.cc:719-725 | the callback of a buffer in flight raises the room by exactly a buffer's events and changes no other buffer, nor what was accepted and sent |
| BufferReuse.CallbackLetsFill | bernfebdrv/bernfebdrv/FEBDRV.cc:689-725 | when no buffer is being filled or empty, an arrival is lost; after a callback it is stored in slot 0 of that buffer |
| BufferReuse.RoomBalance | bernfebdrv/bernfebdrv/FEBDRV.cc:689-725 | room, waiting events and a whole buffer for each message in flight make up all buffers |
| BufferReuse.AllBack | bernfebdrv/bernfebdrv/FEBDRV.cc:719-725 | when every message has been given back and nothing waits, the room is that of all buffers |
| BufferReuse.AlwaysRecovers | bernfebdrv/bernfebdrv/FEBDRV.cc:689-758 | from every state of every run, sends and callbacks alone lead to one with room for all that the buffers hold, and every event accepted in a message |
| SlotCapacity.InBoundsIff | bernfebdrv/bernfebdrv/FEBDRV.cc:689-758 | every slot written in every run, by events and trailers, lies in its buffer's array if and only if the array has more than full slots |
| SlotCapacity.NeverHitsIff | bernfebdrv/bernfebdrv/FEBDRV.cc:689-758 | no write of any run hits a message in flight, under the same condition |
| SlotCapacity.OverrunHits | bernfebdrv/bernfebdrv/FEBDRV.cc:700-701 | a run that writes from one buffer into the message in flight of the next, for any smaller array |
| SlotCapacity.DeclaredArrayOverruns | bernfebdrv/bernfebdrv/FEBDRV.h:164-166 | the array as declared is too small for the test for a full buffer: both fail |
| SendOrder.SendsOldestIff | bernfebdrv/bernfebdrv/FEBDRV.cc:734-738 | with two buffers, in every state: a send takes the oldest run if and only if not both wait with the second opened last |
| SendOrder.NextInOrderIff | bernfebdrv/bernfebdrv/FEBDRV.cc:734-738 | after messages in order, the next one is the next run if and only if the send takes the oldest |
| SendOrder.RunInOrderIff | bernfebdrv/bernfebdrv/FEBDRV.cc:689-758 | over every run of two buffers: messages leave in the order of their events if and only if no send met that state |
| SendOrder.OutOfOrderRun | bernfebdrv/bernfebdrv/FEBDRV.cc:734-738 | a run in which the newer events are sent first |
| SendOrder.BothFullRun | bernfebdrv/bernfebdrv/FEBDRV.cc:734-738 | the same with both buffers full |
| Delivery.MessagesDemultiplex | bernfebdrv/bernfebdrv/FEBDRV.cc:743-758 | every message sent is split completely by the fragment builder: each board gets its own events of the run, in order |
| Delivery.OfferedInOrder | bernfebdrv/bernfebdrv/FEBDRV.cc:728-758 | when messages left in order, the inserts made of them offer every board a beginning of its own accepted events, and all of them once nothing waits |
| Delivery.InOrderDelivery | bernfebdrv/bernfebdrv/FEBDRV.cc:689-758 | over every run of two buffers in which no send overtakes, the same |
| Delivery.EveryEventOnce | bernfebdrv/bernfebdrv/FEBDRV.cc:689-758 | for any number of buffers and any order of sending: the events offered to a board and those that wait for it are together, as a multiset, its accepted events |
| PacketFormat.EventTime | bernfebdrv/bernfebdrv/FEBDRV.cc:880-887 | times lie in 5 .. 2^30 + 4 |
| PacketFormat.ReadStamp | bernfebdrv/bernfebdrv/FEBDRV.cc:880-907 | decoding a timestamp gives back its time plus 5, its overflow bit and its reference bit |
| PacketFormat.RecordRoundTrip | bernfebdrv/bernfebdrv/FEBDRV.cc:863-931 | decoding an encoded record gives back board, both times, both inverted overflow flags, both reference flags and all ADC values |
| PacketDecode.SlotIffRoom | bernfebdrv/bernfebdrv/FEBDRV.cc:689-714 | a slot is handed out if and only if there is room |
| PacketDecode.AcceptUsesRoom | bernfebdrv/bernfebdrv/FEBDRV.cc:689-714 | each event stored uses one place of the room |
| PacketDecode.FullProcess | bernfebdrv/bernfebdrv/FEBDRV.cc:912-917 | without room nothing is stored and nothing in the buffers changes, however the bytes are read, and an overrun is flagged if there was data |
| PacketDecode.PacketRoundTrip | bernfebdrv/bernfebdrv/FEBDRV.cc:857-936 | from a packet of encoded records the driver stores, in order, exactly the first min(room, number of records) |
| Receiver.Febdrv.DecodeTime | bernfebdrv/bernfebdrv/FEBDRV.cc:880-887 | the time stored is the overlay's time plus 5, for every raw timestamp |
| Receiver.Febdrv.Decode | bernfebdrv/bernfebdrv/FEBDRV.cc:875-931 | the event written for a record |
| Receiver.Febdrv.CopyAdc | bernfebdrv/bernfebdrv/FEBDRV.cc:927-931 | the 32 ADC values |
| Receiver.Febdrv.ProcessRecord | bernfebdrv/bernfebdrv/FEBDRV.cc:863-933 | one turn of the loop; 12 bytes are consumed on overrun and 76 otherwise |
| Receiver.Febdrv.ProcessL2Pack | bernfebdrv/bernfebdrv/FEBDRV.cc:857-936 | the loop ends for any bytes, any length and any buffers, and does what the specification says, the memories of the last reference times included |
| Receiver.Febdrv.RecvAndProcessL2Pack | bernfebdrv/bernfebdrv/FEBDRV.cc:938-951 | timeouts, other commands and data packets |
| Receiver.Febdrv.PollDataSetup | bernfebdrv/bernfebdrv/FEBDRV.cc:953-969 | the per-poll counters are cleared and the start of the poll is kept |
| Receiver.Febdrv.PollDataComplete | bernfebdrv/bernfebdrv/FEBDRV.cc:982-985 | the end of the poll is kept, and its length in milliseconds as a 32-bit number |
| Receiver.Febdrv.UpdateOverwritten | bernfebdrv/bernfebdrv/FEBDRV.cc:977-980 | the last count of overwritten events is charged to the board of the last packet |
| Receiver.Febdrv.PollBoard | bernfebdrv/bernfebdrv/FEBDRV.cc:996-1003 | one board: packets up to the end marker or a timeout, then the charge |
| Receiver.Febdrv.PollData | bernfebdrv/bernfebdrv/FEBDRV.cc:988-1008 | a whole poll, with the accounts balanced at its end whatever the boards replied |
| PollAccounting.ProcessBalances | bernfebdrv/bernfebdrv/FEBDRV.cc:863-933 | every packet keeps the accounts balanced |
| PollAccounting.PollBalances | bernfebdrv/bernfebdrv/FEBDRV.cc:863-1008 | at every point of a poll, the growth of total_lost is the sum of both loss arrays and the growth of total_acquired is the sum of evtsperpoll and the number of slots taken, modulo 2^32 |
| PollAccounting.PollAccounts | bernfebdrv/bernfebdrv/FEBDRV.cc:953-1008 | the same from the start of a poll |
| PollAccounting.PacketIsArrivals | bernfebdrv/bernfebdrv/FEBDRV.cc:857-936 | decoding a packet is a run of arrivals of events with the packet's board number and times in range |
| LossCounts.PacketCounts | bernfebdrv/bernfebdrv/FEBDRV.cc:857-936 | for any packet of records and any room: events stored and losses announced are counted for the board that sent them and no other, modulo 2^32, the count of overwritten events is the last record's, and without room for all an overrun is flagged |
| LossCounts.OverrunCounts | bernfebdrv/bernfebdrv/FEBDRV.cc:864-917 | without room the loop reads a loss count every 12 bytes |
| LossCounts.BoardCharges | bernfebdrv/bernfebdrv/FEBDRV.cc:977-1003 | at its end a board is charged with the count of overwritten events in force, its own last one if it sent any record |
| LossCounts.PollIsCharged | bernfebdrv/bernfebdrv/FEBDRV.cc:988-1008 | a whole poll with room: each board's accounts grow by what its own records announce, and the totals by the sums over all boards |
| LossCounts.PollReports | bernfebdrv/bernfebdrv/FEBDRV.cc:953-1008 | so after a poll the accounts are the boards' own announcements, whatever earlier polls left |
| LossCounts.SilentBoard | bernfebdrv/bernfebdrv/FEBDRV.cc:996-1003 | a board that does not answer makes the board before it pay its last count once more |
| LossCounts.PacketRemembered | bernfebdrv/bernfebdrv/FEBDRV.cc:889-907 | the last reference of each clock is remembered, for the board that sent it |
| PublishedLosses.RunSilent | bernfebdrv/bernfebdrv/FEBDRV.cc:918-931 | from cleared buffers, over any polls, sends and callbacks, no event stored carries a loss count |
| PublishedLosses.FragmentsSilent | bernfebdaq/bernfebdaq/Generators/BernZMQ_GeneratorBase.cc:466-470 | so fragments of such events report no loss in the board and no overwritten event, only what the fragment builder refused |
| Receiver.PollLengthExact | bernfebdrv/bernfebdrv/FEBDRV.cc:982-985 | the length of a poll is the difference of its times in milliseconds whenever that fits in 32 bits |
| PacketCollect.GoodSizeIff | bernfebdaq/bernfebdaq/Generators/BernFEBData_generator.cc:155-161 | a packet has a good size if and only if it is 18 bytes and up to 1024 whole records |
| PacketCollect.EndOf | bernfebdaq/bernfebdaq/Generators/BernFEBData_generator.cc:142-196 | every way in which a read ends, by the first reply that is not a good data packet that fits |
| PacketCollect.GetFebData | bernfebdaq/bernfebdaq/Generators/BernFEBData_generator.cc:127-197 | the board reader's loop: outcome, bytes gathered, and what the driver was made to do meanwhile |
| PacketCollect.WholeIsDone | bernfebdaq/bernfebdaq/Generators/BernFEBData_generator.cc:149-190 | good packets that fit and an end marker are returned whole, byte for byte, each decoded by the driver |
| PacketCollect.DoneIsWhole | bernfebdaq/bernfebdaq/Generators/BernFEBData_generator.cc:149-190 | and only such a sequence of packets is |
| Gray.EncodeDecode | bernfebdrv/bernfebdrv/FEBDRV.cc:188-213 | encoding undoes decoding on every register of up to 32 bits |
| Gray.DecodeEncode | bernfebdrv/bernfebdrv/FEBDRV.cc:188-213 | decoding undoes encoding |
| Gray.WordCodec | bernfebdrv/bernfebdrv/FEBDRV.cc:188-213 | on all 32-bit words the decoder is the two-sided inverse of n xor (n >> 1) |
| Gray.GrayToBin | bernfebdrv/bernfebdrv/FEBDRV.cc:188-213 | the ripple decoder computes the log-shift decoding of its word |
| Gray.FiveSteps | bernfebdaq-core/bernfebdaq-core/Overlays/BernFEBFragment.hh:137-139 | the five-step loop computes the same decoding |
| Gray.Time | bernfebdaq-core/bernfebdaq-core/Overlays/BernFEBFragment.hh:136-141 | the overlay's time of a raw timestamp, the one that the driver stores plus 5 |
| Gray.TimestampRange | bernfebdaq-core/bernfebdaq-core/Overlays/BernFEBFragment.hh:136-141 | a decoded time fits in 30 bits |
| Gray.TimestampRoundTrip | bernfebdrv/bernfebdrv/FEBDRV.cc:880-885 | every 30-bit time survives encoding, any flag bits, and decoding |
| BitStore.ConfigSetBit | bernfebdrv/bernfebdrv/FEBDRV.cc:216-225 | the setter on the buffer |
| BitStore.ConfigGetBit | bernfebdrv/bernfebdrv/FEBDRV.cc:227-235 | the getter on the buffer |
| BitStore.SameCellIff | bernfebdrv/bernfebdrv/FEBDRV.cc:216-235 | two bits share a place in the buffer if and only if they are the same bit, also when the length is not a multiple of 8 |
| BitStore.SetCell | bernfebdrv/bernfebdrv/FEBDRV.cc:216-225 | a set writes its own bit of the buffer and no other, used or not |
| BitStore.GetAfterSet | bernfebdrv/bernfebdrv/FEBDRV.cc:216-235 | get after set gives the value set, and leaves every other bit |
| BitStore.ByteOfBits | bernfebdrv/bernfebdrv/FEBDRV.cc:216-235 | for lengths in whole bytes, bits 8m to 8m + 7 are byte m from the end, the first of them its most significant bit |
| BitStore.ByteHoldsIff | bernfebdrv/bernfebdrv/FEBDRV.cc:216-235 | for every length, byte b holds the bits that end 8b before the length |
| BitStore.SetsRefine | bernfebdrv/bernfebdrv/FEBDRV.cc:216-235 | any sequence of sets acts as updates of a plain array of booleans |
| ConfigFile.ScanLine | bernfebdrv/bernfebdrv/FEBCONF.cc:25-35 | what one line buffer adds, within the room left |
| ConfigFile.Collect | bernfebdrv/bernfebdrv/FEBCONF.cc:25-36 | what the parser keeps of any file: the first 1500 of its characters that count |
| ConfigFile.Encode | bernfebdrv/bernfebdrv/FEBCONF.cc:38-45 | the encoding loop uses the layout of the bit setter |
| ConfigFile.ReadBitStream | bernfebdrv/bernfebdrv/FEBCONF.cc:7-49 | number of characters and buffer for any file; nothing changes if the file is missing |
| ConfigFile.EncodedBits | bernfebdrv/bernfebdrv/FEBCONF.cc:41-45 | the driver's getter reads a bit if and only if its character is '1' |
| ConfigFile.EncodedElsewhere | bernfebdrv/bernfebdrv/FEBCONF.cc:38-45 | no other bit of the buffer is set |
| ConfigFile.CharsOfLines | bernfebdrv/bernfebdrv/FEBCONF.cc:25-35 | of a file whose lines fit and carry an apostrophe, the parser keeps the characters before each first apostrophe that are not spaces |
| ConfigFile.CharsWithoutComment | bernfebdrv/bernfebdrv/FEBCONF.cc:25-35 | a line without an apostrophe is kept with its newline and a terminator |
| Configuration.MessageBytes | bernfebdrv/bernfebdrv/FEBCONF.cc:38-80 | the message to a board, byte by byte, from the characters of both files |
| Configuration.FebConf.SetScrConf | bernfebdrv/bernfebdrv/FEBCONF.cc:51-61 | the slow-control file is accepted if and only if it gives 1144 characters |
| Configuration.FebConf.SetPmrConf | bernfebdrv/bernfebdrv/FEBCONF.cc:63-74 | the probe file is accepted if and only if it gives 224 |
| Configuration.FebConf.GetConfBuffer | bernfebdrv/bernfebdrv/FEBCONF.cc:76-80 | the message holds the bytes of both |
| Configuration.BoardConfigs.Configu | bernfebdrv/bernfebdrv/FEBDRV.cc:659-679 | broadcast and wrong lengths are refused without change; otherwise exactly the board's rows change |
| Configuration.BoardConfigs.GetScr | bernfebdrv/bernfebdrv/FEBDRV.cc:681-686 | the stored bytes are handed back |
| Configuration.ConfigurationRoundTrip | bernfebdrv/bernfebdrv/FEBDRV.cc:216-235 | after the whole path, bit i of either register is set if and only if character i of its file is '1' |
| Configuration.SetAndReadBack | bernfebdrv/bernfebdrv/FEBCONF.cc:76-80 | the same for the methods in the order in which a configuration travels |
| MacAddress.MacAddressOf | bernfebdrv/bernfebdrv/FEBDRV.cc:419-429 | the packing loop; an unknown client has id 0 |
| MacAddress.MacByByte | bernfebdaq/bernfebdaq/Generators/BernFEBData_generator.cc:130-132 | the unpacking loop |
| MacAddress.PackUnpack | bernfebdaq/bernfebdaq/Generators/BernFEBData_generator.cc:130-132 | packing and unpacking are inverse to each other, on six bytes and on 48-bit ids |
| MacAddress.ComputedIdIff | bernfebdaq/bernfebdaq/Generators/BernZMQ_GeneratorBase.cc:286-309 | the id that the fragment builder computes from the first configured id and an event's board number is that board's id if and only if the boards agree in all bytes but the last |

## Left out

- Restart: `startDAQ` clearing the buffers while one is in flight, and `FEBBuffer::Init`, which does not clear `droppedbuffer` (`BernZMQ_GeneratorBase.hh:115-123`); the models start from construction.
- Demux.GetData: says nothing about board numbers above 255 before the last record; returns the inserts, which `Worker.MakeInserts` makes afterwards.
- Worker.MakeInserts: all boards are configured; an insert for any other board, and that of a trailer alone, goes to a buffer that the map makes up, without capacity and without a lock.
- FebBuffer.FebBuffer.Insert: takes the exit condition of its waiting loop as a precondition; a batch larger than the ring waits forever.
- Drain.GetNext: covers window sizes of up to 2^32 - 10^9 ns, for which `FillTheorems.NeverThrows` excludes the exception, as do the other members of `Drain` and those of `Ledger`.
- SequenceIds.SequenceIdsIncreaseIff: covers windows of up to a second, because longer ones are not in place (`Windows.WindowsExactIff`).
- SequenceIds.SameIdIffSameBegin: the same; begins in different epochs of 2^32 milliseconds are left out, because ids repeat after each.
- SequenceIds.IdsAlwaysTellIff: the same.
- FillTheorems.CompleteIff: covers windows of up to a second, because longer ones are not in place; `FillTheorems.PayloadsPartition` holds for all.
- RunIds.RunCounts: leaves out a first window in second 10, as `Drain.OneBase` does: its base is 0, which counts as not set, so the next fill sets it anew and starts from 10000 again (`RunIds.FirstFillIds`).
- LossCounts.BoardCharges: the board ends with the end marker, and there is room for all it sends; a timeout after data is charged in the same way (`Receiver.BoardSteps`), and `LossCounts.PacketCounts` says what a packet counts without room.
- Receiver.Febdrv.ProcessL2Pack: the free callback does not come in the middle of a packet.
- Configuration.BoardConfigs.Configu: the outcome of passing the configuration on to the board is an input.
- EventBuffers.Buffers.SendData: a message that is not taken counts as a send and a callback in `DriverRuns` and what follows from it, so its events count as sent.
- PacketCollect.GetFebData: the buffer is as long as what is copied into it; the original checks its capacity after copying.
- Metadata constants (run number, reader id, channel counts) and `time_offset`, which stays 0.
- Seconds beyond the 32-bit range of the fragment metadata, and signed overflow other than as two's complement.
- Floating-point rounding in the scaling test, and the C++ memory model: ring operations are sequentially consistent steps.
- Throttling, metrics, statistics, tracing, sockets and the command interface.
- `BernFEB_GeneratorBase`, the predecessor of the fragment builder.
