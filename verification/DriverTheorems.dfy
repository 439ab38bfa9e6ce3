/** Consequences of the driver's invariant: conservation, exclusive slots and stable messages. */
module DriverTheorems {
  import opened Words
  import opened Events
  import opened Trailer
  import opened DriverBuffers
  import opened DriverRuns

  /** Events in the buffers that wait to be sent. */
  function PendingEvents(banks: seq<Bank>): nat {
    if banks == [] then 0
    else
      var last := banks[|banks| - 1];
      PendingEvents(banks[..|banks| - 1]) + (if last.IsPending() then last.num else 0)
  }

  /** Events in the messages sent. */
  function SentEvents(runs: seq<Run>): int {
    if runs == [] then 0
    else
      var last := runs[|runs| - 1];
      SentEvents(runs[..|runs| - 1]) + (if last.message.Some? then |last.message.value| - 1 else 0)
  }

  /** Events of the unsent runs of one buffer. */
  function UnsentOf(runs: seq<Run>, b: nat): nat {
    if runs == [] then 0
    else
      var last := runs[|runs| - 1];
      UnsentOf(runs[..|runs| - 1], b) + (if last.bank == b && last.message.None? then |last.events| else 0)
  }

  function UnsentBelow(runs: seq<Run>, n: nat): nat {
    if n == 0 then 0 else UnsentBelow(runs, n - 1) + UnsentOf(runs, n - 1)
  }

  lemma {:induction false} AllSent(runs: seq<Run>, b: nat)
    requires forall i | 0 <= i < |runs| :: runs[i].bank == b ==> runs[i].message.Some?
    ensures UnsentOf(runs, b) == 0
  {
    if runs != [] {
      AllSent(runs[..|runs| - 1], b);
    }
  }

  lemma {:induction false} OnlyLastUnsent(runs: seq<Run>, b: nat)
    requires forall i | 0 <= i < |runs| :: runs[i].bank == b && i != LastOf(runs, b) ==> runs[i].message.Some?
    ensures UnsentOf(runs, b)
         == var k := LastOf(runs, b); if k >= 0 && runs[k].message.None? then |runs[k].events| else 0
  {
    if runs != [] {
      var front := runs[..|runs| - 1];
      if runs[|runs| - 1].bank == b {
        AllSent(front, b);
      } else {
        OnlyLastUnsent(front, b);
      }
    }
  }

  lemma {:induction false} UnsentIsPending(banks: seq<Bank>, runs: seq<Run>, full: nat)
    requires forall b | 0 <= b < |banks| :: Holds(banks[b], runs, b)
    requires forall b | 0 <= b < |banks| :: banks[b].Fits(full)
    requires Settled(runs)
    ensures UnsentBelow(runs, |banks|) == PendingEvents(banks)
  {
    if banks != [] {
      var b := |banks| - 1;
      UnsentIsPending(banks[..b], runs, full);
      OnlyLastUnsent(runs, b);
      assert Holds(banks[b], runs, b) && banks[b].Fits(full);
      hide LastOf;
    }
  }

  lemma {:induction false} UnsentSplits(runs: seq<Run>, n: nat)
    requires runs != []
    ensures
      var last := runs[|runs| - 1];
      UnsentBelow(runs, n) == UnsentBelow(runs[..|runs| - 1], n)
        + (if last.bank < n && last.message.None? then |last.events| else 0)
  {
    if n > 0 {
      UnsentSplits(runs, n - 1);
    }
  }

  lemma {:induction false} NothingUnsent(n: nat)
    ensures UnsentBelow([], n) == 0
  {
    if n > 0 {
      NothingUnsent(n - 1);
    }
  }

  lemma {:induction false} EventsOfRuns(runs: seq<Run>, n: nat, full: nat)
    requires forall i | 0 <= i < |runs| :: RunOk(runs[i], n, full)
    ensures |Concat(runs)| == SentEvents(runs) + UnsentBelow(runs, n)
  {
    if runs == [] {
      NothingUnsent(n);
    } else {
      EventsOfRuns(runs[..|runs| - 1], n, full);
      UnsentSplits(runs, n);
      assert RunOk(runs[|runs| - 1], n, full);
    }
  }

  /** Every accepted event is in a buffer that waits to be sent or in a message that was sent. */
  lemma Conservation(d: Driver, full: nat)
    requires Invariant(d, full)
    ensures |d.accepted| == PendingEvents(d.banks) + SentEvents(d.runs)
  {
    EventsOfRuns(d.runs, |d.banks|, full);
    UnsentIsPending(d.banks, d.runs, full);
    hide Concat, Holds, RunOk, Settled, SentOnce;
  }

  /** Each run that is not sent is what exactly one pending buffer holds, and conversely; each run that is sent is sent
      as its events and one trailer. */
  lemma RunsAreSomewhere(d: Driver, full: nat, k: nat)
    requires Invariant(d, full) && k < |d.runs|
    ensures
      var r := d.runs[k];
      match r.message
      case None =>
        && d.banks[r.bank].IsPending() && d.banks[r.bank].slots[..d.banks[r.bank].num] == r.events
        && (forall j | 0 <= j < |d.runs| && j != k && d.runs[j].message.None? :: d.runs[j].bank != r.bank)
      case Some(message) => IsMessageOf(message, r.events) && k in d.order
  {
    var r := d.runs[k];
    assert RunOk(r, |d.banks|, full);
    assert Holds(d.banks[r.bank], d.runs, r.bank) && d.banks[r.bank].Fits(full);
    hide LastOf, IsMessageOf, Concat;
  }

  lemma PendingBanksHaveRuns(d: Driver, full: nat, b: nat)
    requires Invariant(d, full) && b < |d.banks| && d.banks[b].IsPending()
    ensures exists k :: 0 <= k < |d.runs| && d.runs[k].bank == b && d.runs[k].message.None?
  {
    assert Holds(d.banks[b], d.runs, b);
    assert 0 <= LastOf(d.runs, b) < |d.runs|;
    hide LastOf;
  }

  ghost predicate NeverFreed(steps: seq<Action>, b: nat) {
    forall i | 0 <= i < |steps| :: steps[i] != Free(b)
  }

  lemma StepOnBank(d: Driver, full: nat, a: Action, b: nat)
    requires 1 < full < TWO_TO_31 && Consistent(d.banks, full) && Enabled(d, a)
    requires b < |d.banks| && a != Free(b)
    ensures
      var next := Apply(d, full, a);
      && |next.banks| == |d.banks| && next.banks[b].num >= d.banks[b].num
      && (d.banks[b].stat == IN_FLIGHT ==> next.banks[b] == d.banks[b])
  {
    hide LastOf, MakeTrailer;
    if a.Arrive? && NextSlot(d.banks).Slot? {
      AcceptGrows(d.banks, full, a.event);
      hide NextSlot, Accept;
    }
  }

  /** A message in flight is not touched until its buffer is freed. */
  lemma {:induction false} InFlightFrozen(from: Driver, full: nat, steps: seq<Action>, to: Driver, b: nat)
    requires 1 < full < TWO_TO_31 && Leads(from, full, steps, to) && NeverFreed(steps, b) && b < |from.banks|
    ensures |to.banks| == |from.banks| && to.banks[b].num >= from.banks[b].num
    ensures from.banks[b].stat == IN_FLIGHT ==> to.banks[b] == from.banks[b]
    decreases |steps|
  {
    if steps != [] {
      assert steps[0] != Free(b);
      assert NeverFreed(steps[1..], b) by {
        assert forall i | 0 <= i < |steps| - 1 :: steps[1..][i] == steps[i + 1];
      }
      StepOnBank(from, full, steps[0], b);
      InFlightFrozen(Apply(from, full, steps[0]), full, steps[1..], to, b);
      hide Apply;
    }
  }

  /** Until its buffer is freed, a slot that was handed out is not handed out again, and never while in flight. */
  lemma SlotHandedOutOnce(from: Driver, full: nat, event: Event, steps: seq<Action>, to: Driver)
    requires 1 < full < TWO_TO_31 && Consistent(from.banks, full) && NextSlot(from.banks).Slot?
    requires Leads(Arrived(from, full, event), full, steps, to) && Consistent(to.banks, full)
    requires NeverFreed(steps, NextSlot(from.banks).bank)
    ensures
      var given, next := NextSlot(from.banks), NextSlot(to.banks);
      && (next.Slot? && next.bank == given.bank ==> next.index > given.index)
      && (next.Slot? ==> to.banks[next.bank].stat != IN_FLIGHT)
  {
    var given := NextSlot(from.banks);
    AcceptGrows(from.banks, full, event);
    InFlightFrozen(Arrived(from, full, event), full, steps, to, given.bank);
    SlotInRange(from.banks, full);
    SlotInRange(to.banks, full);
    hide NextSlot, LastOf, Accept;
  }
}
