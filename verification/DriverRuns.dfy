/** What the driver's buffers keep over every run of arrivals, sends and callbacks. */
module DriverRuns {
  import opened Words
  import opened Events
  import opened Trailer
  import opened DriverBuffers

  datatype Option<T> = None | Some(value: T)

  /** The events that went into a buffer between two times that it was empty, and the message made of them. */
  datatype Run = Run(bank: nat, events: seq<Event>, message: Option<seq<Event>>)

  /** The buffers, with the history of events accepted and messages sent; `order` lists the runs as they were sent. */
  datatype Driver = Driver(banks: seq<Bank>, accepted: seq<Event>, runs: seq<Run>, order: seq<nat>)

  datatype Action =
    | Arrive(event: Event)
    | Send(start: Timeb, finish: Timeb)
    | Free(bank: nat)

  /** The last run of a buffer, or -1. */
  function LastOf(runs: seq<Run>, b: nat): (k: int)
    ensures -1 <= k < |runs| && (k >= 0 ==> runs[k].bank == b)
    ensures forall j | k < j < |runs| :: runs[j].bank != b
  {
    if runs == [] then -1
    else if runs[|runs| - 1].bank == b then |runs| - 1
    else LastOf(runs[..|runs| - 1], b)
  }

  function Arrived(d: Driver, full: nat, event: Event): Driver
    requires Consistent(d.banks, full) && full > 1
  {
    match NextSlot(d.banks)
    case NoSlot => d
    case Slot(b, i) =>
      SlotInRange(d.banks, full);
      var k := LastOf(d.runs, b);
      var runs :=
        if d.banks[b].stat == FILLING && k >= 0 then d.runs[k := d.runs[k].(events := d.runs[k].events + [event])]
        else d.runs + [Run(b, [event], None)];
      Driver(Accept(d.banks, full, event), d.accepted + [event], runs, d.order)
  }

  function Dispatched(d: Driver, full: nat, start: Timeb, finish: Timeb): Driver
    requires Consistent(d.banks, full) && full < TWO_TO_31
  {
    var b := LastPending(d.banks);
    if b == -1 then d
    else
      var banks := Sent(d.banks, full, start, finish);
      var k := LastOf(d.runs, b);
      if k == -1 then d.(banks := banks)
      else
        var message := banks[b].slots[..banks[b].num];
        Driver(banks, d.accepted, d.runs[k := d.runs[k].(message := Some(message))], d.order + [k])
  }

  /** The callback comes only for a buffer in flight. */
  ghost predicate Enabled(d: Driver, a: Action) {
    a.Free? ==> a.bank < |d.banks| && d.banks[a.bank].stat == IN_FLIGHT
  }

  function Apply(d: Driver, full: nat, a: Action): Driver
    requires Consistent(d.banks, full) && 1 < full < TWO_TO_31 && Enabled(d, a)
  {
    match a
    case Arrive(event) => Arrived(d, full, event)
    case Send(start, finish) => Dispatched(d, full, start, finish)
    case Free(b) => d.(banks := Freed(d.banks, b))
  }

  /** The events of all runs, one after the other. */
  function Concat(runs: seq<Run>): seq<Event> {
    if runs == [] then [] else Concat(runs[..|runs| - 1]) + runs[|runs| - 1].events
  }

  /** The events, then one trailer that holds their number. */
  ghost predicate IsMessageOf(message: seq<Event>, events: seq<Event>) {
    && |message| == |events| + 1 && message[..|events|] == events && |events| < TWO_TO_32
    && exists start, finish :: IsTrailer(message[|events|], |events|, start, finish)
  }

  ghost predicate RunOk(r: Run, n: nat, full: nat) {
    && r.bank < n && 1 <= |r.events| <= full
    && (r.message.Some? ==> IsMessageOf(r.message.value, r.events))
  }

  /** What a buffer holds, by its status, is its last run or the message made of it. */
  ghost predicate Holds(bank: Bank, runs: seq<Run>, b: nat) {
    var k := LastOf(runs, b);
    && bank.num <= |bank.slots|
    && (bank.stat == EMPTY ==> k >= 0 ==> runs[k].message.Some?)
    && (bank.IsPending() ==> k >= 0 && runs[k].message.None? && runs[k].events == bank.slots[..bank.num])
    && (bank.stat == FILLING ==> k == |runs| - 1)
    && (bank.stat == IN_FLIGHT ==> k >= 0 && runs[k].message == Some(bank.slots[..bank.num]))
  }

  /** Only the last run of each buffer may be unsent. */
  ghost predicate Settled(runs: seq<Run>) {
    forall i | 0 <= i < |runs| :: i != LastOf(runs, runs[i].bank) ==> runs[i].message.Some?
  }

  /** The runs sent are exactly those with a message, each once. */
  ghost predicate SentOnce(runs: seq<Run>, order: seq<nat>) {
    && (forall k | k in order :: k < |runs| && runs[k].message.Some?)
    && (forall k | 0 <= k < |runs| && runs[k].message.Some? :: k in order)
    && (forall i, j | 0 <= i < j < |order| :: order[i] != order[j])
  }

  ghost predicate Tracked(banks: seq<Bank>, runs: seq<Run>, full: nat) {
    && (forall i | 0 <= i < |runs| :: RunOk(runs[i], |banks|, full))
    && (forall b | 0 <= b < |banks| :: Holds(banks[b], runs, b))
    && Settled(runs)
  }

  ghost predicate Invariant(d: Driver, full: nat) {
    && Consistent(d.banks, full)
    && d.accepted == Concat(d.runs)
    && Tracked(d.banks, d.runs, full)
    && SentOnce(d.runs, d.order)
  }

  lemma {:induction false} ConcatUpdateLast(runs: seq<Run>, event: Event)
    requires runs != []
    ensures
      var n := |runs| - 1;
      Concat(runs[n := runs[n].(events := runs[n].events + [event])]) == Concat(runs) + [event]
  {
    var n := |runs| - 1;
    var next := runs[n := runs[n].(events := runs[n].events + [event])];
    assert next[..n] == runs[..n];
  }

  lemma {:induction false} ConcatUpdateMessage(runs: seq<Run>, k: nat, message: Option<seq<Event>>)
    requires k < |runs|
    ensures Concat(runs[k := runs[k].(message := message)]) == Concat(runs)
  {
    var n := |runs| - 1;
    var next := runs[k := runs[k].(message := message)];
    if k < n {
      ConcatUpdateMessage(runs[..n], k, message);
      assert next[..n] == runs[..n][k := runs[k].(message := message)];
    } else {
      assert next[..n] == runs[..n];
    }
  }

  lemma LastOfUpdate(runs: seq<Run>, k: nat, r: Run, b: nat)
    requires k < |runs| && r.bank == runs[k].bank
    ensures LastOf(runs[k := r], b) == LastOf(runs, b)
  {
    var next := runs[k := r];
    assert forall j | 0 <= j < |runs| :: next[j].bank == runs[j].bank;
    var p, q := LastOf(next, b), LastOf(runs, b);
    assert p >= 0 ==> runs[p].bank == b;
    assert q >= 0 ==> next[q].bank == b;
  }

  lemma LastOfAppend(runs: seq<Run>, r: Run, b: nat)
    ensures LastOf(runs + [r], b) == if r.bank == b then |runs| else LastOf(runs, b)
  {
    assert (runs + [r])[..|runs|] == runs;
  }

  /** Changing a buffer and its last run together. */
  lemma ReplaceKeeps(banks: seq<Bank>, runs: seq<Run>, full: nat, b: nat, bank: Bank, k: nat, r: Run)
    requires Tracked(banks, runs, full)
    requires b < |banks| && k < |runs| && k == LastOf(runs, b) && r.bank == b
    requires RunOk(r, |banks|, full) && Holds(bank, runs[k := r], b)
    ensures Tracked(banks[b := bank], runs[k := r], full)
  {
    hide RunOk;
    forall x: nat ensures LastOf(runs[k := r], x) == LastOf(runs, x) {
      LastOfUpdate(runs, k, r, x);
    }
    forall x | 0 <= x < |banks| && x != b ensures Holds(banks[x], runs[k := r], x) {
      assert Holds(banks[x], runs, x);
    }
  }

  /** A buffer starts a new run while no other is being filled. */
  lemma AppendKeeps(banks: seq<Bank>, runs: seq<Run>, full: nat, b: nat, bank: Bank, r: Run)
    requires Tracked(banks, runs, full)
    requires b < |banks| && banks[b].stat == EMPTY && r.bank == b
    requires forall x | 0 <= x < |banks| :: banks[x].stat != FILLING
    requires RunOk(r, |banks|, full) && Holds(bank, runs + [r], b)
    ensures Tracked(banks[b := bank], runs + [r], full)
  {
    hide RunOk;
    forall x: nat ensures LastOf(runs + [r], x) == if x == b then |runs| else LastOf(runs, x) {
      LastOfAppend(runs, r, x);
    }
    assert Holds(banks[b], runs, b);
    forall x | 0 <= x < |banks| && x != b ensures Holds(banks[x], runs + [r], x) {
      assert Holds(banks[x], runs, x);
    }
  }

  /** The buffer after it took one more event. */
  function Grown(bank: Bank, full: nat, event: Event): Bank
    requires bank.num < |bank.slots|
  {
    var n := bank.num + 1;
    Bank(bank.slots[n - 1 := event], n, if bank.stat == FILLING && n == full then FULL else FILLING)
  }

  lemma AcceptGrows(banks: seq<Bank>, full: nat, event: Event)
    requires Consistent(banks, full) && full > 1 && NextSlot(banks).Slot?
    ensures
      var b := NextSlot(banks).bank;
      && b < |banks| && banks[b].num < |banks[b].slots|
      && Accept(banks, full, event) == banks[b := Grown(banks[b], full, event)]
      && (|| banks[b].stat == FILLING
          || (banks[b].stat == EMPTY && forall x | 0 <= x < |banks| :: banks[x].stat != FILLING))
  {
    SlotInRange(banks, full);
  }

  lemma GrownHolds(bank: Bank, runs: seq<Run>, b: nat, full: nat, event: Event)
    requires bank.Fits(full) && Holds(bank, runs, b) && bank.stat == FILLING
    ensures
      var k := LastOf(runs, b);
      var r := runs[k].(events := runs[k].events + [event]);
      Holds(Grown(bank, full, event), runs[k := r], b)
  {
    var k, g := LastOf(runs, b), Grown(bank, full, event);
    LastOfUpdate(runs, k, runs[k].(events := runs[k].events + [event]), b);
    assert g.slots[..g.num] == bank.slots[..bank.num] + [event];
    hide LastOf;
  }

  lemma StartedHolds(bank: Bank, runs: seq<Run>, b: nat, full: nat, event: Event)
    requires bank.Fits(full) && bank.stat == EMPTY
    ensures Holds(Grown(bank, full, event), runs + [Run(b, [event], None)], b)
  {
    LastOfAppend(runs, Run(b, [event], None), b);
    var g := Grown(bank, full, event);
    assert g.slots[..1] == [event];
    hide LastOf;
  }

  /** The buffer and the run that an arrival extends or starts. */
  lemma ArriveAt(d: Driver, full: nat, event: Event)
    requires Invariant(d, full) && 1 < full < TWO_TO_31 && NextSlot(d.banks).Slot?
    ensures
      var b := NextSlot(d.banks).bank;
      && b < |d.banks| && d.banks[b].num < |d.banks[b].slots|
      && Holds(d.banks[b], d.runs, b) && d.banks[b].Fits(full)
      && (d.banks[b].stat == FILLING
          || (d.banks[b].stat == EMPTY && forall x | 0 <= x < |d.banks| :: d.banks[x].stat != FILLING))
      && Consistent(d.banks[b := Grown(d.banks[b], full, event)], full)
      && Arrived(d, full, event)
         == Driver(d.banks[b := Grown(d.banks[b], full, event)], d.accepted + [event],
                   if d.banks[b].stat == FILLING && LastOf(d.runs, b) >= 0
                   then var k := LastOf(d.runs, b); d.runs[k := d.runs[k].(events := d.runs[k].events + [event])]
                   else d.runs + [Run(b, [event], None)], d.order)
  {
    AcceptKeepsConsistent(d.banks, full, event);
    AcceptGrows(d.banks, full, event);
    var b := NextSlot(d.banks).bank;
    assert Holds(d.banks[b], d.runs, b) && d.banks[b].Fits(full);
    hide LastOf, Accept, Grown, Settled, SentOnce, Concat;
  }

  lemma ArriveKeeps(d: Driver, full: nat, event: Event)
    requires Invariant(d, full) && 1 < full < TWO_TO_31 && NextSlot(d.banks).Slot?
    ensures Invariant(Arrived(d, full, event), full)
  {
    hide Arrived, NextSlot, Accept, Consistent, Tracked, SentOnce, Grown, Concat;
    ArriveAt(d, full, event);
    var next, b := Arrived(d, full, event), NextSlot(d.banks).bank;
    var bank := d.banks[b];
    if bank.stat == FILLING {
      var k := LastOf(d.runs, b);
      GrownHolds(bank, d.runs, b, full, event);
      ConcatUpdateLast(d.runs, event);
      ExtendRun(d, full, k, event);
      RunGrows(d, full, k, event);
      ReplaceKeeps(d.banks, d.runs, full, b, Grown(bank, full, event), k, next.runs[k]);
    } else {
      var r := Run(b, [event], None);
      StartedHolds(bank, d.runs, b, full, event);
      ConcatAppend(d.runs, r);
      StartRun(d, r);
      AppendKeeps(d.banks, d.runs, full, b, Grown(bank, full, event), r);
    }
  }

  /** The run of the buffer being filled has room for one more event. */
  lemma RunGrows(d: Driver, full: nat, k: nat, event: Event)
    requires Invariant(d, full) && k < |d.runs| && k == LastOf(d.runs, d.runs[k].bank)
    requires d.runs[k].bank < |d.banks| && d.banks[d.runs[k].bank].stat == FILLING
    ensures RunOk(d.runs[k].(events := d.runs[k].events + [event]), |d.banks|, full)
  {
    assert RunOk(d.runs[k], |d.banks|, full);
    assert Holds(d.banks[d.runs[k].bank], d.runs, d.runs[k].bank) && d.banks[d.runs[k].bank].Fits(full);
    hide LastOf, Settled, SentOnce, Concat;
  }

  lemma ConcatAppend(runs: seq<Run>, r: Run)
    ensures Concat(runs + [r]) == Concat(runs) + r.events
  {
    assert (runs + [r])[..|runs|] == runs;
  }

  lemma ExtendRun(d: Driver, full: nat, k: nat, event: Event)
    requires k < |d.runs| && SentOnce(d.runs, d.order) && d.runs[k].message.None?
    ensures SentOnce(d.runs[k := d.runs[k].(events := d.runs[k].events + [event])], d.order)
  {}

  lemma StartRun(d: Driver, r: Run)
    requires SentOnce(d.runs, d.order) && r.message.None?
    ensures SentOnce(d.runs + [r], d.order)
  {}

  /** The buffer after it was closed with its trailer. */
  function Closed(bank: Bank, start: Timeb, finish: Timeb): Bank
    requires bank.num < |bank.slots| && bank.num < TWO_TO_32
  {
    var n := bank.num;
    Bank(bank.slots[n := MakeTrailer(bank.slots[n], n, start, finish)], n + 1, IN_FLIGHT)
  }

  lemma TrailerCloses(slots: seq<Event>, n: nat, start: Timeb, finish: Timeb)
    requires n < |slots| && n < TWO_TO_32
    ensures IsMessageOf(slots[n := MakeTrailer(slots[n], n, start, finish)][..n + 1], slots[..n])
  {
    TrailerRoundTrip(slots[n], n, start, finish);
    hide MakeTrailer, IsTrailer;
    var message := slots[n := MakeTrailer(slots[n], n, start, finish)][..n + 1];
    assert message[..n] == slots[..n];
    assert IsTrailer(message[n], n, start, finish);
  }

  lemma ClosedHolds(bank: Bank, runs: seq<Run>, n: nat, b: nat, full: nat, start: Timeb, finish: Timeb)
    requires bank.Fits(full) && full < TWO_TO_31 && Holds(bank, runs, b) && bank.IsPending()
    requires RunOk(runs[LastOf(runs, b)], n, full)
    ensures
      var k, g := LastOf(runs, b), Closed(bank, start, finish);
      var r := runs[k].(message := Some(g.slots[..g.num]));
      Holds(g, runs[k := r], b) && RunOk(r, n, full)
  {
    var k, g := LastOf(runs, b), Closed(bank, start, finish);
    var events, message := runs[k].events, g.slots[..g.num];
    LastOfUpdate(runs, k, runs[k].(message := Some(message)), b);
    TrailerCloses(bank.slots, bank.num, start, finish);
    hide LastOf, IsMessageOf, MakeTrailer;
  }

  lemma OrderGrows(runs: seq<Run>, order: seq<nat>, k: nat, message: seq<Event>)
    requires SentOnce(runs, order) && k < |runs| && runs[k].message.None?
    ensures SentOnce(runs[k := runs[k].(message := Some(message))], order + [k])
  {
    var next, longer := runs[k := runs[k].(message := Some(message))], order + [k];
    assert k !in order;
    forall j | 0 <= j < |next| && next[j].message.Some? ensures j in longer {
      if j != k {
        assert j in order;
      } else {
        assert longer[|order|] == k;
      }
    }
  }

  lemma SendKeeps(d: Driver, full: nat, start: Timeb, finish: Timeb)
    requires Invariant(d, full) && 1 < full < TWO_TO_31
    ensures Invariant(Dispatched(d, full, start, finish), full)
  {
    var b := LastPending(d.banks);
    if b >= 0 {
      var next, bank := Dispatched(d, full, start, finish), d.banks[b];
      SendKeepsConsistent(d.banks, full, start, finish);
      assert Holds(bank, d.runs, b);
      var k := LastOf(d.runs, b);
      assert RunOk(d.runs[k], |d.banks|, full);
      var g := Closed(bank, start, finish);
      assert next.banks == d.banks[b := g];
      hide LastPending, Consistent, Tracked, SentOnce, Concat, RunOk, Sent, Closed, Holds, MakeTrailer;
      ClosedHolds(bank, d.runs, |d.banks|, b, full, start, finish);
      ConcatUpdateMessage(d.runs, k, Some(g.slots[..g.num]));
      OrderGrows(d.runs, d.order, k, g.slots[..g.num]);
      ReplaceKeeps(d.banks, d.runs, full, b, g, k, next.runs[k]);
    }
  }

  lemma FreeKeeps(d: Driver, full: nat, b: nat)
    requires Invariant(d, full) && b < |d.banks| && d.banks[b].stat == IN_FLIGHT
    ensures Invariant(d.(banks := Freed(d.banks, b)), full)
  {
    var banks := Freed(d.banks, b);
    FreeKeepsConsistent(d.banks, full, b);
    hide LastOf, Consistent;
    assert Holds(d.banks[b], d.runs, b);
    forall x | 0 <= x < |banks| ensures Holds(banks[x], d.runs, x) {
      assert x != b ==> Holds(d.banks[x], d.runs, x);
    }
  }

  /** Every step keeps the invariant. */
  lemma StepKeeps(d: Driver, full: nat, a: Action)
    requires Invariant(d, full) && 1 < full < TWO_TO_31 && Enabled(d, a)
    ensures Invariant(Apply(d, full, a), full)
  {
    match a
    case Arrive(event) =>
      if NextSlot(d.banks).Slot? {
        ArriveKeeps(d, full, event);
      }
    case Send(start, finish) => SendKeeps(d, full, start, finish);
    case Free(b) => FreeKeeps(d, full, b);
  }

  function Start(n: nat, blank: Event, full: nat): Driver {
    Driver(EmptyBanks(n, blank, full), [], [], [])
  }

  lemma StartOk(n: nat, blank: Event, full: nat)
    ensures Invariant(Start(n, blank, full), full)
  {}

  /** `steps` leads from one state to another, callbacks coming only for buffers in flight. */
  ghost predicate Leads(from: Driver, full: nat, steps: seq<Action>, to: Driver)
    requires 1 < full < TWO_TO_31
    decreases |steps|
  {
    if steps == [] then to == from
    else
      && Consistent(from.banks, full) && Enabled(from, steps[0])
      && Leads(Apply(from, full, steps[0]), full, steps[1..], to)
  }

  /** The invariant holds after every run. */
  lemma {:induction false} RunKeeps(from: Driver, full: nat, steps: seq<Action>, to: Driver)
    requires 1 < full < TWO_TO_31 && Invariant(from, full) && Leads(from, full, steps, to)
    ensures Invariant(to, full)
    decreases |steps|
  {
    if steps != [] {
      StepKeeps(from, full, steps[0]);
      RunKeeps(Apply(from, full, steps[0]), full, steps[1..], to);
      hide Apply, Invariant;
    }
  }

  /** One more step at the end of a run. */
  lemma {:induction false} LeadsOn(from: Driver, full: nat, steps: seq<Action>, d: Driver, a: Action)
    requires 1 < full < TWO_TO_31 && Leads(from, full, steps, d)
    requires Consistent(d.banks, full) && Enabled(d, a)
    ensures Leads(from, full, steps + [a], Apply(d, full, a))
    decreases |steps|
  {
    hide Apply, Consistent, Enabled;
    if steps == [] {
      assert ([] + [a])[1..] == [];
    } else {
      LeadsOn(Apply(from, full, steps[0]), full, steps[1..], d, a);
      assert (steps + [a])[1..] == steps[1..] + [a];
    }
  }
}
