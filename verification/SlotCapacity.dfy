/** How many slots a driver buffer must have: `full` is the number of events at which it counts as full, `cap` the
    number of slots that its array has. The buffers lie one behind the other in memory. */
module SlotCapacity {
  import opened Words
  import opened Events
  import opened Trailer
  import opened DriverBuffers
  import opened DriverRuns

  /** The slot that a step writes: the event's, or the trailer's. */
  function Target(d: Driver, a: Action): Slot {
    match a
    case Arrive(_) => NextSlot(d.banks)
    case Send(_, _) =>
      var b := LastPending(d.banks);
      if b == -1 then NoSlot else Slot(b, d.banks[b].num)
    case Free(_) => NoSlot
  }

  /** The step writes inside the array of the buffer it means to write. */
  ghost predicate InBounds(d: Driver, a: Action, cap: nat) {
    Target(d, a).Slot? ==> Target(d, a).index < cap
  }

  /** Position of a slot, counted in slots from the first buffer on. */
  function Address(bank: nat, index: nat, cap: nat): nat {
    if bank == 0 then index else cap + Address(bank - 1, index, cap)
  }

  /** The step writes into a message that the messaging layer has not given back. */
  ghost predicate HitsMessage(d: Driver, a: Action, cap: nat) {
    var t := Target(d, a);
    t.Slot? && exists x: nat, i: nat ::
      && x < |d.banks| && d.banks[x].stat == IN_FLIGHT && i < d.banks[x].num
      && Address(x, i, cap) == Address(t.bank, t.index, cap)
  }

  lemma TargetInRange(d: Driver, full: nat, a: Action)
    requires Consistent(d.banks, full) && full > 1
    ensures Target(d, a).Slot? ==>
      var t := Target(d, a);
      t.bank < |d.banks| && t.index <= full && d.banks[t.bank].stat != IN_FLIGHT
  {
    SlotInRange(d.banks, full);
    var b := LastPending(d.banks);
    assert b >= 0 ==> d.banks[b].Fits(full);
  }

  lemma {:induction false} AddressInjective(b: nat, i: nat, c: nat, j: nat, cap: nat)
    requires i < cap && j < cap && Address(b, i, cap) == Address(c, j, cap)
    ensures b == c && i == j
  {
    if b > 0 && c > 0 {
      AddressInjective(b - 1, i, c - 1, j, cap);
    }
  }

  /** Enough slots keep every write in its own buffer and away from messages in flight. */
  lemma EnoughSlots(d: Driver, full: nat, a: Action, cap: nat)
    requires Consistent(d.banks, full) && full > 1 && cap > full
    ensures InBounds(d, a, cap) && !HitsMessage(d, a, cap)
  {
    TargetInRange(d, full, a);
    var t := Target(d, a);
    hide Target;
    if t.Slot? {
      forall x: nat, i: nat | x < |d.banks| && d.banks[x].stat == IN_FLIGHT && i < d.banks[x].num
        ensures Address(x, i, cap) != Address(t.bank, t.index, cap)
      {
        assert d.banks[x].Fits(full);
        if Address(x, i, cap) == Address(t.bank, t.index, cap) {
          AddressInjective(x, i, t.bank, t.index, cap);
        }
      }
    }
  }

  /** Every write of every run stays in its buffer. */
  ghost predicate AlwaysInBounds(from: Driver, full: nat, cap: nat)
    requires 1 < full < TWO_TO_31
  {
    forall steps, d, a | Leads(from, full, steps, d) && Enabled(d, a) :: InBounds(d, a, cap)
  }

  /** No write of any run hits a message in flight. */
  ghost predicate NeverHits(from: Driver, full: nat, cap: nat)
    requires 1 < full < TWO_TO_31
  {
    forall steps, d, a | Leads(from, full, steps, d) && Enabled(d, a) :: !HitsMessage(d, a, cap)
  }

  /** More arrivals into the buffer being filled, up to `j` events in it. */
  lemma {:induction false} Pour(from: Driver, full: nat, steps: seq<Action>, d: Driver, event: Event, b: nat, j: nat)
    returns (more: seq<Action>, e: Driver)
    requires 1 < full < TWO_TO_31 && Leads(from, full, steps, d) && Consistent(d.banks, full)
    requires b < |d.banks| && d.banks[b].stat == FILLING && d.banks[b].num <= j < full
    ensures Leads(from, full, more, e) && Consistent(e.banks, full)
    ensures |e.banks| == |d.banks| && e.banks[b].stat == FILLING && e.banks[b].num == j
    ensures forall x | 0 <= x < |d.banks| && x != b :: e.banks[x] == d.banks[x]
    decreases j - d.banks[b].num
  {
    if d.banks[b].num == j {
      more, e := steps, d;
    } else {
      LeadsOn(from, full, steps, d, Arrive(event));
      var next := Arrived(d, full, event);
      FillingTakes(d, full, event, b);
      hide Arrived, Leads, Consistent;
      more, e := Pour(from, full, steps + [Arrive(event)], next, event, b, j);
    }
  }

  /** An arrival while buffer `b` is being filled. */
  lemma FillingTakes(d: Driver, full: nat, event: Event, b: nat)
    requires 1 < full < TWO_TO_31 && Consistent(d.banks, full) && b < |d.banks| && d.banks[b].stat == FILLING
    ensures Target(d, Arrive(event)) == Slot(b, d.banks[b].num)
    ensures
      var e := Arrived(d, full, event);
      && Consistent(e.banks, full) && |e.banks| == |d.banks|
      && e.banks[b].num == d.banks[b].num + 1
      && e.banks[b].stat == (if d.banks[b].num + 1 == full then FULL else FILLING)
      && forall x | 0 <= x < |d.banks| && x != b :: e.banks[x] == d.banks[x]
  {
    AcceptKeepsConsistent(d.banks, full, event);
    assert NextSlot(d.banks).bank == b;
    AcceptGrows(d.banks, full, event);
    hide LastOf, Accept;
  }

  /** An arrival while no buffer is being filled opens the first empty one. */
  lemma EmptyTakes(d: Driver, full: nat, event: Event, b: nat)
    requires 1 < full < TWO_TO_31 && Consistent(d.banks, full) && b < |d.banks| && d.banks[b].stat == EMPTY
    requires forall x | 0 <= x < |d.banks| :: d.banks[x].stat != FILLING
    requires forall x | 0 <= x < b :: d.banks[x].stat != EMPTY
    ensures
      var e := Arrived(d, full, event);
      && Consistent(e.banks, full) && |e.banks| == |d.banks|
      && e.banks[b].num == 1 && e.banks[b].stat == FILLING
      && forall x | 0 <= x < |d.banks| && x != b :: e.banks[x] == d.banks[x]
  {
    AcceptKeepsConsistent(d.banks, full, event);
    assert NextSlot(d.banks) == Slot(b, 0);
    AcceptGrows(d.banks, full, event);
    hide LastOf, Accept;
  }

  /** A send while only buffer `b` waits. */
  lemma OnlyWaiting(d: Driver, full: nat, start: Timeb, finish: Timeb, b: nat)
    requires 1 < full < TWO_TO_31 && Consistent(d.banks, full) && b < |d.banks| && d.banks[b].IsPending()
    requires forall x | 0 <= x < |d.banks| && x != b :: !d.banks[x].IsPending()
    ensures Target(d, Send(start, finish)) == Slot(b, d.banks[b].num)
    ensures
      var e := Dispatched(d, full, start, finish);
      && Consistent(e.banks, full) && |e.banks| == |d.banks|
      && e.banks[b].num == d.banks[b].num + 1 && e.banks[b].stat == IN_FLIGHT
      && forall x | 0 <= x < |d.banks| && x != b :: e.banks[x] == d.banks[x]
  {
    SendKeepsConsistent(d.banks, full, start, finish);
    assert LastPending(d.banks) == b;
    hide LastOf, MakeTrailer;
  }

  /** One buffer is in use, all others but those in flight are empty. */
  ghost predicate OneOpen(d: Driver, full: nat, b: nat, num: nat, stat: int) {
    && Consistent(d.banks, full) && b < |d.banks| && d.banks[b].num == num && d.banks[b].stat == stat
    && forall x | 0 <= x < |d.banks| && x != b :: d.banks[x].stat == EMPTY || d.banks[x].stat == IN_FLIGHT
  }

  /** From an empty buffer to one of which the next write has index `j`. */
  lemma FillTo(from: Driver, full: nat, steps: seq<Action>, d: Driver, event: Event, b: nat, j: nat)
    returns (more: seq<Action>, e: Driver, a: Action)
    requires 1 < full < TWO_TO_31 && Leads(from, full, steps, d) && OneOpen(d, full, b, 0, EMPTY) && 1 <= j <= full
    requires forall x | 0 <= x < b :: d.banks[x].stat == IN_FLIGHT
    ensures Leads(from, full, more, e) && !a.Free? && Target(e, a) == Slot(b, j)
    ensures OneOpen(e, full, b, j, if j == full then FULL else FILLING) && |e.banks| == |d.banks|
    ensures forall x | 0 <= x < |d.banks| && x != b :: e.banks[x] == d.banks[x]
  {
    hide Arrived, Leads, Target;
    EmptyTakes(d, full, event, b);
    LeadsOn(from, full, steps, d, Arrive(event));
    var begun := Arrived(d, full, event);
    more, e := Pour(from, full, steps + [Arrive(event)], begun, event, b, if j == full then j - 1 else j);
    FillingTakes(e, full, event, b);
    a := Arrive(event);
    if j == full {
      LeadsOn(from, full, more, e, a);
      more, e, a := more + [a], Arrived(e, full, event), Send(Timeb(0, 0, 0, 0), Timeb(0, 0, 0, 0));
      OnlyWaiting(e, full, a.start, a.finish, b);
    }
  }

  /** A buffer needs a slot for the trailer beside those for the events it takes: every write of every run stays in its
      buffer exactly when there are more slots than events at which a buffer counts as full. */
  lemma InBoundsIff(n: nat, blank: Event, full: nat, cap: nat)
    requires n > 0 && 1 < full < TWO_TO_31
    ensures AlwaysInBounds(Start(n, blank, full), full, cap) <==> cap > full
  {
    var from := Start(n, blank, full);
    StartOk(n, blank, full);
    if cap > full {
      forall steps, d, a | Leads(from, full, steps, d) && Enabled(d, a) ensures InBounds(d, a, cap) {
        RunKeeps(from, full, steps, d);
        EnoughSlots(d, full, a, cap);
      }
    } else {
      var steps, d, a := FillTo(from, full, [], from, blank, 0, full);
      assert !InBounds(d, a, cap) && Enabled(d, a);
    }
  }

  /** One event into the empty buffer `b`, and its message. */
  lemma OneMessage(from: Driver, full: nat, steps: seq<Action>, d: Driver, event: Event, b: nat)
    returns (more: seq<Action>, e: Driver)
    requires 1 < full < TWO_TO_31 && Leads(from, full, steps, d) && OneOpen(d, full, b, 0, EMPTY)
    requires forall x | 0 <= x < b :: d.banks[x].stat == IN_FLIGHT
    ensures Leads(from, full, more, e) && Consistent(e.banks, full) && |e.banks| == |d.banks|
    ensures e.banks[b].stat == IN_FLIGHT && e.banks[b].num == 2
    ensures forall x | 0 <= x < |d.banks| && x != b :: e.banks[x] == d.banks[x]
  {
    hide Leads, Dispatched, Target;
    var s, f, _ := FillTo(from, full, steps, d, event, b, 1);
    var send := Send(Timeb(0, 0, 0, 0), Timeb(0, 0, 0, 0));
    OnlyWaiting(f, full, send.start, send.finish, b);
    LeadsOn(from, full, s, f, send);
    more, e := s + [send], Dispatched(f, full, send.start, send.finish);
  }

  /** Two messages in flight, all other buffers empty. */
  lemma TwoInFlight(n: nat, blank: Event, full: nat) returns (steps: seq<Action>, d: Driver)
    requires n >= 2 && 1 < full < TWO_TO_31
    ensures Leads(Start(n, blank, full), full, steps, d) && Consistent(d.banks, full) && |d.banks| == n
    ensures d.banks[0].stat == d.banks[1].stat == IN_FLIGHT && d.banks[1].num == 2
    ensures forall x | 2 <= x < n :: d.banks[x].stat == EMPTY
  {
    var from := Start(n, blank, full);
    StartOk(n, blank, full);
    var s1, d1 := OneMessage(from, full, [], from, blank, 0);
    assert d1.banks[1].Fits(full);
    steps, d := OneMessage(from, full, s1, d1, blank, 1);
    hide Leads;
  }

  /** With fewer slots a run reaches a write into the message of the next buffer. */
  lemma OverrunHits(n: nat, blank: Event, full: nat, cap: nat) returns (steps: seq<Action>, d: Driver, a: Action)
    requires n >= 2 && 1 < full < TWO_TO_31 && 0 < cap <= full
    ensures Leads(Start(n, blank, full), full, steps, d) && Enabled(d, a) && HitsMessage(d, a, cap)
  {
    var from := Start(n, blank, full);
    var s, e := TwoInFlight(n, blank, full);
    LeadsOn(from, full, s, e, Free(0));
    FreeKeepsConsistent(e.banks, full, 0);
    var freed := Apply(e, full, Free(0));
    assert freed.banks[0].Fits(full);
    assert OneOpen(freed, full, 0, 0, EMPTY);
    hide Start, Leads, Target, Apply;
    steps, d, a := FillTo(from, full, s + [Free(0)], freed, blank, 0, cap);
    assert d.banks[1].stat == IN_FLIGHT && 0 < d.banks[1].num;
    assert Address(1, 0, cap) == Address(0, cap, cap);
  }

  /** Messages in flight are safe from all writes of all runs under the same condition. */
  lemma NeverHitsIff(n: nat, blank: Event, full: nat, cap: nat)
    requires n >= 2 && 1 < full < TWO_TO_31 && cap > 0
    ensures NeverHits(Start(n, blank, full), full, cap) <==> cap > full
  {
    var from := Start(n, blank, full);
    if cap > full {
      StartOk(n, blank, full);
      forall steps, d, a | Leads(from, full, steps, d) && Enabled(d, a) ensures !HitsMessage(d, a, cap) {
        RunKeeps(from, full, steps, d);
        EnoughSlots(d, full, a, cap);
      }
    } else {
      var steps, d, a := OverrunHits(n, blank, full, cap);
    }
  }

  const FULL_AT: nat := 256 * 1024
  const DECLARED_SLOTS: nat := 25 * 1024 + 1

  /** The array as declared is too small for the test in force. */
  lemma DeclaredArrayOverruns(blank: Event)
    ensures !AlwaysInBounds(Start(2, blank, FULL_AT), FULL_AT, DECLARED_SLOTS)
    ensures !NeverHits(Start(2, blank, FULL_AT), FULL_AT, DECLARED_SLOTS)
  {
    InBoundsIff(2, blank, FULL_AT, DECLARED_SLOTS);
    NeverHitsIff(2, blank, FULL_AT, DECLARED_SLOTS);
    hide AlwaysInBounds, NeverHits, Start;
  }
}
