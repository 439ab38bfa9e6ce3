/** The losses that the driver counts do not get into the events that it publishes. */
module PublishedLosses {
  import opened Words
  import opened Events
  import opened Trailer
  import opened DriverBuffers
  import opened PacketFormat
  import opened PacketDecode
  import opened PollAccounting
  import opened FebBuffer
  import opened Fill
  import opened FillTheorems

  predicate IsSilent(e: Event) {
    e.lostCpu == 0 && e.lostFpga == 0
  }

  ghost predicate AllSilent(events: seq<Event>) {
    forall i | 0 <= i < |events| :: IsSilent(events[i])
  }

  /** No slot of any buffer holds a loss count, as after the buffers are cleared. */
  ghost predicate SlotsSilent(banks: seq<Bank>) {
    forall b | 0 <= b < |banks| :: AllSilent(banks[b].slots)
  }

  lemma EmptySilent(n: nat, blank: Event, full: nat)
    requires IsSilent(blank)
    ensures SlotsSilent(EmptyBanks(n, blank, full)) && AllSilent([])
  {}

  /** Sending and the callback leave the loss counts of all slots alone. */
  lemma SendSilent(banks: seq<Bank>, full: nat, start: Timeb, finish: Timeb)
    requires Consistent(banks, full) && full < TWO_TO_31 && SlotsSilent(banks)
    ensures SlotsSilent(Sent(banks, full, start, finish))
  {
    forall b | 0 <= b < |banks| ensures AllSilent(Sent(banks, full, start, finish)[b].slots) {
      assert AllSilent(banks[b].slots);
    }
  }

  lemma CallbackSilent(banks: seq<Bank>, b: nat)
    requires b < |banks| && SlotsSilent(banks)
    ensures SlotsSilent(Freed(banks, b))
  {
    forall x | 0 <= x < |banks| ensures AllSilent(Freed(banks, b)[x].slots) {
      assert AllSilent(banks[x].slots);
    }
  }

  lemma AcceptSilent(banks: seq<Bank>, full: nat, event: Event)
    requires Consistent(banks, full) && full > 1 && SlotsSilent(banks) && IsSilent(event)
    ensures SlotsSilent(Accept(banks, full, event))
  {
    SlotInRange(banks, full);
    forall b | 0 <= b < |banks| ensures AllSilent(Accept(banks, full, event)[b].slots) {
      assert AllSilent(banks[b].slots);
    }
    hide Consistent;
  }

  /** Decoding a record keeps the two loss fields of the slot, whatever the record announces. */
  lemma DecodedSilent(memory: Memory, j: nat, source: Octet, slot: Event)
    ensures
      var e := Decoded(memory, j, source, slot);
      e.lostCpu == slot.lostCpu && e.lostFpga == slot.lostFpga
  {}

  lemma ReceivedSilent(memory: Memory, j: nat, source: Octet, full: nat, banks: seq<Bank>)
    requires Consistent(banks, full) && full > 1 && NextSlot(banks).Slot? && SlotsSilent(banks)
    ensures IsSilent(Received(memory, j, source, full, banks))
  {
    SlotInRange(banks, full);
    var b, i := NextSlot(banks).bank, NextSlot(banks).index;
    assert AllSilent(banks[b].slots);
    DecodedSilent(memory, j, source, banks[b].slots[i]);
    hide Decoded, Consistent;
  }

  lemma {:induction false} PacketSilent(memory: Memory, j: nat, datalen: int, source: Octet, full: nat, s: State)
    requires s.Valid(full) && SlotsSilent(s.banks) && AllSilent(s.accepted)
    ensures
      var t := Process(memory, j, datalen, source, full, s);
      SlotsSilent(t.banks) && AllSilent(t.accepted)
    decreases datalen - j
  {
    hide Counted, PacketDecode.CountEvent, Consistent, SlotsSilent, Received, Accept, NextSlot, IsSilent;
    if j < datalen {
      var (next, t) := Step(memory, j, source, full, s);
      if NextSlot(s.banks).Slot? {
        ReceivedSilent(memory, j, source, full, s.banks);
        AcceptSilent(s.banks, full, Received(memory, j, source, full, s.banks));
      }
      PacketSilent(memory, next, datalen, source, full, t);
    }
  }

  /** Over any poll of any packets, no event stored carries a loss count, whatever the boards announce. */
  lemma {:induction false} PollSilent(steps: seq<PollStep>, full: nat, s: State)
    requires s.Valid(full) && SlotsSilent(s.banks) && AllSilent(s.accepted)
    ensures
      var t := Poll(steps, full, s);
      SlotsSilent(t.banks) && AllSilent(t.accepted)
    decreases |steps|
  {
    hide Consistent, SlotsSilent, Process, ChargeOverwritten, AllSilent;
    if steps != [] {
      if steps[0].Data? {
        PacketSilent(steps[0].memory, 0, steps[0].datalen, steps[0].source, full, s);
      }
      PollSilent(steps[1..], full, PollOne(steps[0], full, s));
    }
  }

  /** What the driver does with its buffers: polls, sends, and callbacks of buffers in flight. */
  datatype Doing = PollOnce(steps: seq<PollStep>) | Publish(start: Timeb, finish: Timeb) | GiveBack(bank: nat)

  function AfterDoing(a: Doing, full: nat, s: State): (r: State)
    requires s.Valid(full)
    ensures r.Valid(full)
  {
    match a
    case PollOnce(steps) => Poll(steps, full, s)
    case Publish(start, finish) =>
      SendKeepsConsistent(s.banks, full, start, finish);
      s.(banks := Sent(s.banks, full, start, finish))
    case GiveBack(b) =>
      if b < |s.banks| && s.banks[b].stat == IN_FLIGHT then
        FreeKeepsConsistent(s.banks, full, b);
        s.(banks := Freed(s.banks, b))
      else
        s
  }

  function AfterAll(doings: seq<Doing>, full: nat, s: State): (r: State)
    requires s.Valid(full)
    ensures r.Valid(full)
  {
    if doings == [] then s
    else AfterDoing(doings[|doings| - 1], full, AfterAll(doings[..|doings| - 1], full, s))
  }

  /** From cleared buffers, over any sequence of polls, sends and callbacks: no event that the driver stores carries a
      loss count. */
  lemma {:induction false} RunSilent(doings: seq<Doing>, n: nat, blank: Event, full: nat, c: Counters)
    requires 1 < full < TWO_TO_31 && c.Valid() && IsSilent(blank)
    ensures
      var t := AfterAll(doings, full, State(EmptyBanks(n, blank, full), c, []));
      SlotsSilent(t.banks) && AllSilent(t.accepted)
  {
    hide Consistent, SlotsSilent, AllSilent, Poll, Sent, Freed;
    if doings == [] {
      EmptySilent(n, blank, full);
    } else {
      var front, a := doings[..|doings| - 1], doings[|doings| - 1];
      RunSilent(front, n, blank, full, c);
      var s := AfterAll(front, full, State(EmptyBanks(n, blank, full), c, []));
      if a.PollOnce? {
        PollSilent(a.steps, full, s);
      } else if a.Publish? {
        SendSilent(s.banks, full, a.start, a.finish);
      } else if a.bank < |s.banks| {
        CallbackSilent(s.banks, a.bank);
      }
    }
  }

  lemma {:induction false} NothingMissed(events: seq<Event>)
    requires AllSilent(events)
    ensures Missed(events) == 0 && Overwritten(0, events) == 0 && CounterAfter(0, events) == 0
  {
    if events != [] {
      NothingMissed(events[..|events| - 1]);
    }
  }

  /** So the fragments made of such events never report a loss in the board or an overwritten event; all they can
      report is what the fragment builder itself refused. */
  lemma FragmentsSilent(p: Plan, n: nat)
    requires p.Valid() && p.counter == 0 && AllSilent(p.events)
    ensures
      var t := TotalTally(FragmentsOf(p, n));
      t.missed == 0 && t.overwritten == 0 && t.nEvents == p.CutAt(n) && t.dropped == Sum(p.dropped[..p.CutAt(n)])
  {
    hide FragmentsOf, TotalTally, Plan.CutAt, Missed, Overwritten, Sum;
    CountersAddUp(p, n);
    var cut := p.CutAt(n);
    NothingMissed(p.events[..cut]);
    assert p.events[0..cut] == p.events[..cut] && p.dropped[0..cut] == p.dropped[..cut] && p.events[..0] == [];
  }
}
