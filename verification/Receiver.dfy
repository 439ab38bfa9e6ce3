/** The driver's receiving side: a packet buffer, the event buffers, and the counters, changed in place. */
module Receiver {
  import opened Words
  import opened Events
  import opened Trailer
  import opened DriverBuffers
  import opened EventBuffers
  import opened PacketFormat
  import opened PacketDecode
  import opened PollAccounting
  import Gray

  const FEB_DATA_CDR: int := 0x0300
  const FEB_EOF_CDR: int := 0x0303

  /** What one receive call delivers; nothing when `numbytes` is not positive. */
  datatype Reply = Reply(numbytes: int, cmd: int, source: Octet, data: Memory)

  /** What the replies of one board make the driver do: data packets are decoded, other packets skipped, and after the
      end marker or a timeout the last count of overwritten events is charged. The number of the board of the last
      packet carries over. */
  function BoardSteps(replies: seq<Reply>, source: Octet): (r: (seq<PollStep>, Octet)) {
    if replies == [] || replies[0].numbytes <= 0 then ([EndOfBoard(source)], source)
    else
      var p := replies[0];
      if p.cmd == FEB_EOF_CDR then ([EndOfBoard(p.source)], p.source)
      else
        var rest := BoardSteps(replies[1..], p.source);
        if p.cmd == FEB_DATA_CDR then ([Data(p.data, p.numbytes - 18, p.source)] + rest.0, rest.1) else rest
  }

  function PollSteps(boards: seq<seq<Reply>>, source: Octet): seq<PollStep> {
    if boards == [] then []
    else
      var first := BoardSteps(boards[0], source);
      first.0 + PollSteps(boards[1..], first.1)
  }

  /** Milliseconds between two times, in 32 bits. */
  function PollLength(start: Timeb, finish: Timeb): int {
    ToInt32(1000 * finish.time + finish.millitm - (1000 * start.time + start.millitm))
  }

  /** For times in milliseconds, it is their difference whenever that fits. */
  lemma PollLengthExact(start: nat, finish: nat)
    requires start / 1000 < TWO_TO_64 && finish / 1000 < TWO_TO_64
    requires -0x8000_0000 <= finish - start < 0x8000_0000
    ensures PollLength(Timeb(start / 1000, start % 1000, 0, 0), Timeb(finish / 1000, finish % 1000, 0, 0))
         == finish - start
  {}

  class Febdrv {
    const buffers: Buffers
    var cmd: int
    var source: Octet
    var data: Memory
    var numbytes: int
    var overwritten: Uint32
    var lostInFpga: Uint32
    var totalLost: Uint32
    var totalAcquired: Uint32
    var lostPerPollCpu: seq<int>
    var lostPerPollFpga: seq<int>
    var evtsPerPoll: seq<int>
    var overrun: bool
    var ts0RefMem: seq<Uint32>
    var ts1RefMem: seq<Uint32>
    var daqOn: bool
    /** Start and end of the poll, and its length in milliseconds. */
    var mstime0: Timeb
    var mstime1: Timeb
    var msPerPoll: int
    /** Every event stored so far. */
    ghost var accepted: seq<Event>

    constructor (n: nat, full: nat, blank: Event, data: Memory)
      requires 1 < full < TWO_TO_31
      ensures Valid() && fresh(buffers) && fresh(buffers.evbuf) && fresh(buffers.evnum) && fresh(buffers.evbufstat)
      ensures buffers.full == full && buffers.Banks() == EmptyBanks(n, blank, full) && accepted == []
    {
      buffers := new Buffers(n, full, blank);
      cmd, source, numbytes, overwritten, lostInFpga, totalLost, totalAcquired := 0, 0, 0, 0, 0, 0, 0;
      this.data := data;
      lostPerPollCpu, lostPerPollFpga, evtsPerPoll := seq(BOARDS, _ => 0), seq(BOARDS, _ => 0), seq(BOARDS, _ => 0);
      ts0RefMem, ts1RefMem := seq(BOARDS, _ => 0), seq(BOARDS, _ => 0);
      mstime0, mstime1, msPerPoll := Timeb(0, 0, 0, 0), Timeb(0, 0, 0, 0), 0;
      overrun, daqOn, accepted := false, false, [];
    }

    ghost function Counts(): Counters
      reads this
    {
      Counters(totalLost, totalAcquired, lostPerPollCpu, lostPerPollFpga, evtsPerPoll, overwritten, lostInFpga, overrun,
               ts0RefMem, ts1RefMem)
    }

    ghost predicate Valid()
      reads this, buffers.evbuf, buffers.evnum, buffers.evbufstat
    {
      buffers.Valid() && Counts().Valid()
    }

    /** The state as a value. */
    ghost function AsState(): (s: State)
      requires Valid()
      reads this, buffers.evbuf, buffers.evnum, buffers.evbufstat
      ensures s.Valid(buffers.full)
    {
      State(buffers.Banks(), Counts(), accepted)
    }

    /** The time the driver stores for a raw timestamp: the decoded field, the two plain bits and the correction. */
    method DecodeTime(word: Uint32) returns (t: Uint32)
      ensures t == EventTime(word)
    {
      var tt := word % 0x4000_0000 / 4;
      var bin := Gray.GrayToBin(tt);
      Gray.FieldWidth(tt);
      hide Gray.DecodeWord, Gray.EncodeWord;
      Gray.FieldShift(bin);
      var field := bin * 4 % TWO_TO_32 + word % 4;
      t := field + 5;
    }

    method CopyAdc(j: nat) returns (adc: Adc)
      ensures adc == AdcAt(data, j)
    {
      var a := new Uint16[32](_ => 0);
      var jj := j;
      for kk := 0 to 32
        invariant jj == j + 2 * kk
        invariant forall k | 0 <= k < kk :: a[k] == Word16(data, j + 2 * k)
      {
        a[kk] := Word16(data, jj);
        jj := jj + 2;
      }
      adc := a[..];
    }

    /** The record at `j` as an event in the given slot. */
    method Decode(j: nat, ts0: Uint32, ts1: Uint32, slot: Event) returns (event: Event)
      requires ts0 == EventTime(Word32(data, j + 4)) && ts1 == EventTime(Word32(data, j + 8))
      ensures event == Decoded(data, j, source, slot)
    {
      var word0, word1 := Word32(data, j + 4), Word32(data, j + 8);
      var flags: int := 0;
      if !Overflow(word0) {
        flags := flags + 1;
      }
      if !Overflow(word1) {
        flags := flags + 2;
      }
      if Reference(word0) {
        flags := flags + 4;
      }
      if Reference(word1) {
        flags := flags + 8;
      }
      var adc := CopyAdc(j + 12);
      event := slot.(mac5 := source, flags := flags, ts0 := ts0, ts1 := ts1, adc := adc);
    }

    /** The loss counts at `j`. */
    method CountRecord(j: nat)
      requires Counts().Valid()
      modifies `overwritten, `lostInFpga, `totalLost, `lostPerPollFpga
      ensures Counts() == CountLoss(old(Counts()), data, j, source)
    {
      overwritten := Word16(data, j);
      lostInFpga := Word16(data, j + 2);
      totalLost := ToUint32(totalLost + lostInFpga);
      lostPerPollFpga := Add(lostPerPollFpga, source, lostInFpga);
    }

    /** Remembers the times of reference events. */
    method Remember(j: nat, ts0: Uint32, ts1: Uint32)
      requires Counts().Valid()
      requires ts0 == EventTime(Word32(data, j + 4)) && ts1 == EventTime(Word32(data, j + 8))
      modifies `ts0RefMem, `ts1RefMem
      ensures Counts() == KeepReferences(old(Counts()), data, j, source)
    {
      hide EventTime, Reference, Word32;
      if Reference(Word32(data, j + 4)) {
        ts0RefMem := ts0RefMem[source := ts0];
      }
      if Reference(Word32(data, j + 8)) {
        ts1RefMem := ts1RefMem[source := ts1];
      }
    }

    /** The part of a turn before a slot is asked for. */
    method ReadHeader(j: nat) returns (ts0: Uint32, ts1: Uint32)
      requires Counts().Valid()
      modifies `overwritten, `lostInFpga, `totalLost, `lostPerPollFpga, `ts0RefMem, `ts1RefMem
      ensures ts0 == EventTime(Word32(data, j + 4)) && ts1 == EventTime(Word32(data, j + 8))
      ensures Counts() == Counted(old(Counts()), data, j, source)
    {
      hide EventTime, Word32, CountLoss, KeepReferences;
      CountRecord(j);
      ts0 := DecodeTime(Word32(data, j + 4));
      ts1 := DecodeTime(Word32(data, j + 8));
      Remember(j, ts0, ts1);
    }

    method CountStored(ghost event: Event)
      requires Counts().Valid()
      modifies `totalAcquired, `evtsPerPoll, `accepted
      ensures Counts() == CountEvent(old(Counts()), source) && accepted == old(accepted) + [event]
    {
      totalAcquired := ToUint32(totalAcquired + 1);
      evtsPerPoll := Add(evtsPerPoll, source, 1);
      accepted := accepted + [event];
    }

    /** Fills the slot. */
    method StoreRecord(j: nat, ts0: Uint32, ts1: Uint32, slot: Slot) returns (ghost event: Event)
      requires ts0 == EventTime(Word32(data, j + 4)) && ts1 == EventTime(Word32(data, j + 8))
      requires buffers.Shape() && slot.Slot? && slot.bank < buffers.n && slot.index <= buffers.full
      modifies buffers.evbuf
      ensures buffers.Shape()
      ensures event == Decoded(data, j, source, old(buffers.BankAt(slot.bank)).slots[slot.index])
      ensures buffers.Banks() == Store(old(buffers.Banks()), slot, event)
    {
      var written := Decode(j, ts0, ts1, buffers.evbuf[slot.bank, slot.index]);
      hide Decoded, Store;
      buffers.Write(slot, written);
      event := written;
    }

    /** The steps of one turn of the loop make up one step of the specification. */
    lemma StepIsStored(j: nat, s: State, event: Event)
      requires s.Valid(buffers.full) && NextSlot(s.banks).Slot?
      requires
        var slot, banks := NextSlot(s.banks), Take(s.banks, buffers.full);
        && slot.bank < |banks| && slot.index < |banks[slot.bank].slots|
        && event == Decoded(data, j, source, banks[slot.bank].slots[slot.index])
      ensures
        var banks := Store(Take(s.banks, buffers.full), NextSlot(s.banks), event);
        && Consistent(banks, buffers.full)
        && Step(data, j, source, buffers.full, s)
           == (j + RECORD,
               State(banks, CountEvent(Counted(s.counters, data, j, source), source), s.accepted + [event]))
    {
      SlotInRange(s.banks, buffers.full);
      AcceptKeepsConsistent(s.banks, buffers.full, event);
      assert Take(s.banks, buffers.full)[NextSlot(s.banks).bank].slots == s.banks[NextSlot(s.banks).bank].slots;
      hide Counted, CountEvent, Consistent, Decoded, NextSlot, Take, Store;
    }

    method FillSlot(j: nat, ts0: Uint32, ts1: Uint32, slot: Slot, ghost s: State) returns (ghost event: Event)
      requires ts0 == EventTime(Word32(data, j + 4)) && ts1 == EventTime(Word32(data, j + 8))
      requires s.Valid(buffers.full) && slot == NextSlot(s.banks) && slot.Slot?
      requires buffers.Shape() && buffers.Banks() == Take(s.banks, buffers.full)
      modifies buffers.evbuf
      ensures buffers.Valid()
      ensures Step(data, j, source, buffers.full, s)
           == (j + RECORD,
               State(buffers.Banks(), CountEvent(Counted(s.counters, data, j, source), source), s.accepted + [event]))
    {
      SlotInRange(s.banks, buffers.full);
      hide Counted, CountEvent, Consistent, Take, Store, Decoded, NextSlot, Step;
      event := StoreRecord(j, ts0, ts1, slot);
      StepIsStored(j, s, event);
    }

    /** The part of a turn after a slot was handed out. */
    method TakeRecord(j: nat, ts0: Uint32, ts1: Uint32, slot: Slot, ghost s: State)
      requires ts0 == EventTime(Word32(data, j + 4)) && ts1 == EventTime(Word32(data, j + 8))
      requires s.Valid(buffers.full) && slot == NextSlot(s.banks) && slot.Slot?
      requires buffers.Shape() && buffers.Banks() == Take(s.banks, buffers.full)
      requires Counts() == Counted(s.counters, data, j, source) && accepted == s.accepted
      modifies `totalAcquired, `evtsPerPoll, `accepted, buffers.evbuf
      ensures Valid()
      ensures Step(data, j, source, buffers.full, s) == (j + RECORD, AsState())
    {
      hide Counted, CountEvent, Consistent, Take, Store, Decoded, NextSlot, Step;
      ghost var event := FillSlot(j, ts0, ts1, slot, s);
      CountStored(event);
    }

    /** The part of a turn after the slot was asked for: without one, it is an overrun. */
    method UseSlot(j: nat, ts0: Uint32, ts1: Uint32, slot: Slot, ghost s: State) returns (jj: nat)
      requires ts0 == EventTime(Word32(data, j + 4)) && ts1 == EventTime(Word32(data, j + 8))
      requires s.Valid(buffers.full) && slot == NextSlot(s.banks)
      requires buffers.Valid() && buffers.Banks() == Take(s.banks, buffers.full)
      requires Counts() == Counted(s.counters, data, j, source) && accepted == s.accepted
      modifies `totalAcquired, `evtsPerPoll, `overrun, `accepted, buffers.evbuf
      ensures Valid()
      ensures Step(data, j, source, buffers.full, s) == (jj, AsState())
    {
      hide Counted, CountEvent, Consistent, Take, Store, Decoded, NextSlot, Step, EventTime, Word32;
      jj := j + 12;
      if slot.NoSlot? {
        overrun := true;
        NoSlotStep(j, s);
        return;
      }
      TakeRecord(j, ts0, ts1, slot, s);
      jj := jj + 64;
    }

    /** One turn of the decoding loop. */
    method ProcessRecord(j: nat) returns (jj: nat)
      requires Valid()
      modifies `overwritten, `lostInFpga, `totalLost, `lostPerPollFpga, `totalAcquired, `evtsPerPoll, `overrun
      modifies `ts0RefMem, `ts1RefMem
      modifies `accepted, buffers.evbuf, buffers.evnum, buffers.evbufstat
      ensures Valid()
      ensures (jj, AsState()) == Step(data, j, source, buffers.full, old(AsState()))
    {
      ghost var s := AsState();
      hide Counted, CountEvent, Consistent, Take, Store, Decoded, NextSlot, Step, EventTime, Word32;
      var ts0, ts1 := ReadHeader(j);
      var slot := buffers.GetNextEvent();
      jj := UseSlot(j, ts0, ts1, slot, s);
    }

    lemma NoSlotStep(j: nat, s: State)
      requires s.Valid(buffers.full) && NextSlot(s.banks).NoSlot?
      ensures Take(s.banks, buffers.full) == s.banks
      ensures Step(data, j, source, buffers.full, s)
           == (j + HEADER, s.(counters := Counted(s.counters, data, j, source).(overrun := true)))
    {}

    method ProcessL2Pack(datalen: int)
      requires Valid()
      modifies `overwritten, `lostInFpga, `totalLost, `lostPerPollFpga, `totalAcquired, `evtsPerPoll, `overrun
      modifies `ts0RefMem, `ts1RefMem
      modifies `accepted, buffers.evbuf, buffers.evnum, buffers.evbufstat
      ensures Valid()
      ensures AsState() == Process(data, 0, datalen, source, buffers.full, old(AsState()))
    {
      hide Step, Consistent;
      ghost var result := Process(data, 0, datalen, source, buffers.full, AsState());
      var jj: nat := 0;
      while jj < datalen
        invariant Valid()
        invariant Process(data, jj, datalen, source, buffers.full, AsState()) == result
        decreases datalen - jj
      {
        jj := ProcessRecord(jj);
      }
    }

    method RecvAndProcessL2Pack(reply: Reply) returns (rv: int)
      requires Valid()
      modifies `numbytes, `cmd, `source, `data
      modifies `overwritten, `lostInFpga, `totalLost, `lostPerPollFpga, `totalAcquired, `evtsPerPoll, `overrun
      modifies `ts0RefMem, `ts1RefMem, `accepted, buffers.evbuf, buffers.evnum, buffers.evbufstat
      ensures Valid()
      ensures rv == if reply.numbytes > 0 && reply.cmd != FEB_DATA_CDR then -1 else numbytes
      ensures numbytes == if reply.numbytes > 0 then reply.numbytes else 0
      ensures source == (if numbytes > 0 then reply.source else old(source))
      ensures cmd == (if numbytes > 0 then reply.cmd else old(cmd))
      ensures AsState() ==
        if numbytes > 0 && cmd == FEB_DATA_CDR
        then Process(reply.data, 0, reply.numbytes - 18, reply.source, buffers.full, old(AsState()))
        else old(AsState())
    {
      hide Process, Consistent;
      if reply.numbytes <= 0 {
        numbytes := 0;
        return numbytes;
      }
      numbytes, cmd, source, data := reply.numbytes, reply.cmd, reply.source, reply.data;
      if cmd != FEB_DATA_CDR {
        return -1;
      }
      ProcessL2Pack(numbytes - 18);
      rv := numbytes;
    }

    method ClearCounters()
      requires Counts().Valid()
      modifies `overwritten, `lostInFpga, `lostPerPollCpu, `lostPerPollFpga, `evtsPerPoll
      ensures Counts() == Setup(old(Counts()))
    {
      overwritten := 0;
      lostInFpga := 0;
      lostPerPollCpu, lostPerPollFpga, evtsPerPoll := seq(BOARDS, _ => 0), seq(BOARDS, _ => 0), seq(BOARDS, _ => 0);
    }

    method PollDataSetup(now: Timeb) returns (rv: int)
      requires Valid()
      modifies `overwritten, `lostInFpga, `lostPerPollCpu, `lostPerPollFpga, `evtsPerPoll, `mstime0, `msPerPoll
      ensures Valid() && rv == if daqOn then 1 else 0
      ensures mstime0 == now && msPerPoll == 0
      ensures AsState() == old(AsState()).(counters := Setup(old(Counts())))
    {
      hide Setup, Consistent;
      mstime0, msPerPoll := now, 0;
      ClearCounters();
      rv := if daqOn then 1 else 0;
    }

    method PollDataComplete(now: Timeb)
      modifies `mstime1, `msPerPoll
      ensures mstime1 == now && msPerPoll == PollLength(mstime0, now)
    {
      mstime1 := now;
      msPerPoll := ToInt32((mstime1.time - mstime0.time) * 1000 + (mstime1.millitm - mstime0.millitm));
    }

    method UpdateOverwritten()
      requires Valid()
      modifies `totalLost, `lostPerPollCpu
      ensures Valid()
      ensures AsState() == old(AsState()).(counters := ChargeOverwritten(old(Counts()), source))
    {
      totalLost := ToUint32(totalLost + overwritten);
      lostPerPollCpu := Add(lostPerPollCpu, source, overwritten);
    }

    /** One board: `replies` are what the receive calls deliver until they time out. */
    method PollBoard(replies: seq<Reply>)
      requires Valid()
      modifies `numbytes, `cmd, `source, `data
      modifies `overwritten, `lostInFpga, `totalLost, `lostPerPollFpga, `lostPerPollCpu, `totalAcquired, `evtsPerPoll
      modifies `overrun, `ts0RefMem, `ts1RefMem, `accepted, buffers.evbuf, buffers.evnum, buffers.evbufstat
      ensures Valid()
      ensures source == BoardSteps(replies, old(source)).1
      ensures AsState() == Poll(BoardSteps(replies, old(source)).0, buffers.full, old(AsState()))
    {
      hide Process, Consistent, ChargeOverwritten;
      ghost var steps := BoardSteps(replies, source);
      ghost var goal := Poll(steps.0, buffers.full, AsState());
      numbytes, cmd := 1, 0;
      var i := 0;
      while numbytes > 0 && cmd != FEB_EOF_CDR
        invariant Valid() && i <= |replies| + 1
        invariant i == |replies| + 1 ==> numbytes <= 0
        invariant
          var rest := if numbytes > 0 && cmd != FEB_EOF_CDR then BoardSteps(replies[i..], source)
                      else ([EndOfBoard(source)], source);
          rest.1 == steps.1 && Poll(rest.0, buffers.full, AsState()) == goal
        decreases |replies| + 1 - i
      {
        var reply := if i < |replies| then replies[i] else Reply(0, 0, 0, data);
        var _ := RecvAndProcessL2Pack(reply);
        assert i < |replies| ==> replies[i..][0] == replies[i] && replies[i..][1..] == replies[i + 1..];
        i := i + 1;
      }
      UpdateOverwritten();
    }

    /** A whole poll; the accounts balance at its end whatever the boards replied. */
    method PollData(boards: seq<seq<Reply>>, start: Timeb, finish: Timeb)
      requires Valid()
      modifies this, buffers.evbuf, buffers.evnum, buffers.evbufstat
      ensures Valid()
      ensures
        var reset := old(AsState()).(counters := Setup(old(Counts())));
        AsState() == if old(daqOn) then Poll(PollSteps(boards, old(source)), buffers.full, reset) else reset
      ensures Balanced(AsState(), old(totalLost), old(totalAcquired), |old(accepted)|)
      ensures mstime0 == start
      ensures if old(daqOn) then mstime1 == finish && msPerPoll == PollLength(start, finish) else msPerPoll == 0
    {
      hide Setup, Consistent, Poll, BoardSteps, Balanced;
      ghost var steps := PollSteps(boards, source);
      ghost var before := AsState();
      ghost var reset := before.(counters := Setup(before.counters));
      SetupBalances(before);
      PollAccounts(steps, buffers.full, before);
      var on := PollDataSetup(start);
      if on == 0 {
        return;
      }
      var f := 0;
      assert boards[0..] == boards;
      while f < |boards|
        invariant Valid() && mstime0 == start && f <= |boards|
        invariant Poll(PollSteps(boards[f..], source), buffers.full, AsState()) == Poll(steps, buffers.full, reset)
      {
        ghost var first := BoardSteps(boards[f], source);
        assert boards[f..][0] == boards[f] && boards[f..][1..] == boards[f + 1..];
        PollAppend(first.0, PollSteps(boards[f + 1..], first.1), buffers.full, AsState());
        PollBoard(boards[f]);
        f := f + 1;
      }
      NoSteps(buffers.full, AsState());
      PollDataComplete(finish);
    }
  }

  lemma NoSteps(full: nat, s: State)
    requires s.Valid(full)
    ensures Poll([], full, s) == s
  {}
}
