/** The driver's event buffers: filled in turn, handed to the messaging layer without copying, and freed by its
    callback. */
module DriverBuffers {
  import opened Words
  import opened Events
  import opened Trailer

  const EMPTY: int := 0
  const FILLING: int := 1
  const FULL: int := 2
  const IN_FLIGHT: int := 3

  /** One buffer: its slots, the number of slots used, and its status. */
  datatype Bank = Bank(slots: seq<Event>, num: nat, stat: int)
  {
    predicate IsPending() {
      stat == FILLING || stat == FULL
    }

    /** `full` is the number of events at which a buffer is full; one more slot is left for the trailer. */
    predicate Fits(full: nat) {
      && |slots| == full + 1
      && EMPTY <= stat <= IN_FLIGHT
      && (stat == EMPTY ==> num == 0)
      && (stat == FILLING ==> 1 <= num < full)
      && (stat == FULL ==> num == full)
      && (stat == IN_FLIGHT ==> 2 <= num <= full + 1)
    }
  }

  /** Every buffer fits its status, and at most one is being filled. */
  ghost predicate Consistent(banks: seq<Bank>, full: nat) {
    && (forall i | 0 <= i < |banks| :: banks[i].Fits(full))
    && (forall i, j | 0 <= i < j < |banks| :: banks[i].stat == FILLING ==> banks[j].stat != FILLING)
  }

  function EmptyBanks(n: nat, blank: Event, full: nat): (banks: seq<Bank>)
    ensures Consistent(banks, full)
  {
    seq(n, _ => Bank(seq(full + 1, _ => blank), 0, EMPTY))
  }

  datatype Slot = NoSlot | Slot(bank: nat, index: nat)

  /** The first buffer with the given status, or the number of buffers. */
  function FirstWith(banks: seq<Bank>, stat: int, i: nat): (r: nat)
    requires i <= |banks|
    ensures i <= r <= |banks| && (r < |banks| ==> banks[r].stat == stat)
    ensures forall j | i <= j < r :: banks[j].stat != stat
    decreases |banks| - i
  {
    if i == |banks| || banks[i].stat == stat then i else FirstWith(banks, stat, i + 1)
  }

  /** The last buffer that holds events to send, or -1. */
  function LastPending(banks: seq<Bank>): (r: int)
    ensures -1 <= r < |banks| && (r >= 0 ==> banks[r].IsPending())
    ensures forall j | r < j < |banks| :: !banks[j].IsPending()
  {
    if banks == [] then -1
    else if banks[|banks| - 1].IsPending() then |banks| - 1
    else LastPending(banks[..|banks| - 1])
  }

  /** Handing out a slot: in the buffer being filled, or else the first slot of an empty buffer. */
  function NextSlot(banks: seq<Bank>): Slot {
    var b := FirstWith(banks, FILLING, 0);
    var e := FirstWith(banks, EMPTY, 0);
    if b < |banks| then Slot(b, banks[b].num)
    else if e < |banks| then Slot(e, 0)
    else NoSlot
  }

  function Take(banks: seq<Bank>, full: nat): (r: seq<Bank>)
    ensures |r| == |banks|
  {
    match NextSlot(banks)
    case NoSlot => banks
    case Slot(b, i) =>
      if banks[b].stat == FILLING then
        banks[b := banks[b].(num := i + 1, stat := if i + 1 == full then FULL else FILLING)]
      else
        banks[b := banks[b].(num := 1, stat := FILLING)]
  }

  /** The caller fills the slot it was handed. */
  function Store(banks: seq<Bank>, slot: Slot, event: Event): (r: seq<Bank>)
    requires slot.Slot? ==> slot.bank < |banks| && slot.index < |banks[slot.bank].slots|
    ensures |r| == |banks|
  {
    match slot
    case NoSlot => banks
    case Slot(b, i) => banks[b := banks[b].(slots := banks[b].slots[i := event])]
  }

  lemma SlotInRange(banks: seq<Bank>, full: nat)
    requires Consistent(banks, full) && full > 1
    ensures NextSlot(banks).Slot? ==>
      var s := NextSlot(banks);
      && s.bank < |banks| && s.index < full && s.index == banks[s.bank].num
      && (banks[s.bank].stat == FILLING || banks[s.bank].stat == EMPTY)
      && s.index < |Take(banks, full)[s.bank].slots|
  {}

  function Accept(banks: seq<Bank>, full: nat, event: Event): (r: seq<Bank>)
    requires Consistent(banks, full) && full > 1
    ensures |r| == |banks|
  {
    SlotInRange(banks, full);
    Store(Take(banks, full), NextSlot(banks), event)
  }

  /** Sending closes the last pending buffer with a trailer and marks it in flight. */
  function Sent(banks: seq<Bank>, full: nat, start: Timeb, finish: Timeb): (r: seq<Bank>)
    requires Consistent(banks, full) && full < TWO_TO_31
    ensures |r| == |banks|
  {
    var b := LastPending(banks);
    if b == -1 then banks
    else
      var n := banks[b].num;
      banks[b := Bank(banks[b].slots[n := MakeTrailer(banks[b].slots[n], n, start, finish)], n + 1, IN_FLIGHT)]
  }

  function Freed(banks: seq<Bank>, b: nat): (r: seq<Bank>)
    requires b < |banks|
    ensures |r| == |banks|
  {
    banks[b := banks[b].(stat := EMPTY, num := 0)]
  }

  lemma TakeKeepsConsistent(banks: seq<Bank>, full: nat)
    requires Consistent(banks, full) && full > 1
    ensures Consistent(Take(banks, full), full)
  {
    SlotInRange(banks, full);
  }

  lemma AcceptKeepsConsistent(banks: seq<Bank>, full: nat, event: Event)
    requires Consistent(banks, full) && full > 1
    ensures Consistent(Accept(banks, full, event), full)
  {
    SlotInRange(banks, full);
  }

  lemma SendKeepsConsistent(banks: seq<Bank>, full: nat, start: Timeb, finish: Timeb)
    requires Consistent(banks, full) && 1 < full < TWO_TO_31
    ensures Consistent(Sent(banks, full, start, finish), full)
  {}

  lemma FreeKeepsConsistent(banks: seq<Bank>, full: nat, b: nat)
    requires Consistent(banks, full) && b < |banks|
    ensures Consistent(Freed(banks, b), full)
  {}
}
