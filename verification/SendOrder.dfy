/** In which order the driver's messages leave. */
module SendOrder {
  import opened Words
  import opened Events
  import opened Trailer
  import opened DriverBuffers
  import opened DriverRuns
  import opened DriverTheorems

  /** The run that the next send closes is the oldest one waiting. */
  ghost predicate SendsOldest(d: Driver) {
    var b := LastPending(d.banks);
    b >= 0 ==> forall x | 0 <= x < |d.banks| && d.banks[x].IsPending() :: LastOf(d.runs, b) <= LastOf(d.runs, x)
  }

  /** Both of two buffers wait to be sent, and the second one was opened last. */
  ghost predicate WouldOvertake(d: Driver) {
    && |d.banks| == 2 && d.banks[0].IsPending() && d.banks[1].IsPending()
    && d.runs != [] && d.runs[|d.runs| - 1].bank == 1
  }

  /** With two buffers, a send takes the older run exactly when it does not find both waiting and the second opened
      last. */
  lemma SendsOldestIff(d: Driver, full: nat)
    requires Invariant(d, full) && |d.banks| == 2
    ensures SendsOldest(d) <==> !WouldOvertake(d)
  {
    var k0, k1 := LastOf(d.runs, 0), LastOf(d.runs, 1);
    assert Holds(d.banks[0], d.runs, 0) && Holds(d.banks[1], d.runs, 1);
    if d.runs != [] {
      assert RunOk(d.runs[|d.runs| - 1], 2, full);
    }
    assert d.banks[0].IsPending() && d.banks[1].IsPending() ==> k0 != k1;
    hide LastOf, Concat, Settled, SentOnce, IsMessageOf;
  }

  /** Messages left in the order in which their first events were accepted, with none held back. */
  ghost predicate InOrder(order: seq<nat>) {
    forall i | 0 <= i < |order| :: order[i] == i
  }

  lemma InOrderAppend(order: seq<nat>, k: nat)
    ensures InOrder(order + [k]) <==> InOrder(order) && k == |order|
  {
    assert (order + [k])[|order|] == k;
    assert forall i | 0 <= i < |order| :: (order + [k])[i] == order[i];
  }

  lemma InOrderMembers(order: seq<nat>, k: nat)
    requires InOrder(order)
    ensures k in order <==> k < |order|
  {
    assert k < |order| ==> order[k] == k;
  }

  /** While messages are in order, the runs sent are the oldest ones. */
  lemma SentIffOlder(d: Driver, full: nat, k: nat)
    requires Invariant(d, full) && InOrder(d.order) && k < |d.runs|
    ensures d.runs[k].message.Some? <==> k < |d.order|
  {
    InOrderMembers(d.order, k);
    hide Consistent, Tracked, Concat, InOrder;
  }

  /** While messages are in order, the next one comes in order exactly when it is made of the oldest run waiting. */
  lemma NextInOrderIff(d: Driver, full: nat)
    requires Invariant(d, full) && InOrder(d.order) && LastPending(d.banks) >= 0
    ensures LastOf(d.runs, LastPending(d.banks)) == |d.order| <==> SendsOldest(d)
  {
    var b, n := LastPending(d.banks), |d.order|;
    var k := LastOf(d.runs, b);
    assert Holds(d.banks[b], d.runs, b);
    forall y | 0 <= y < |d.banks| && d.banks[y].IsPending() ensures LastOf(d.runs, y) >= n {
      assert Holds(d.banks[y], d.runs, y);
      SentIffOlder(d, full, LastOf(d.runs, y));
    }
    SentIffOlder(d, full, n);
    RunsAreSomewhere(d, full, n);
    assert RunOk(d.runs[n], |d.banks|, full);
    assert LastOf(d.runs, d.runs[n].bank) == n;
    hide LastOf, Concat, InOrder, IsMessageOf;
  }

  /** No send of the run overtakes. */
  ghost predicate NoOvertaking(from: Driver, full: nat, steps: seq<Action>)
    requires 1 < full < TWO_TO_31
    decreases |steps|
  {
    if steps == [] then true
    else
      && (steps[0].Send? ==> !WouldOvertake(from))
      && (Consistent(from.banks, full) && Enabled(from, steps[0]) ==>
            NoOvertaking(Apply(from, full, steps[0]), full, steps[1..]))
  }

  lemma SendInOrderIff(d: Driver, full: nat, start: Timeb, finish: Timeb)
    requires Invariant(d, full) && 1 < full < TWO_TO_31 && |d.banks| == 2
    ensures InOrder(Dispatched(d, full, start, finish).order) <==> InOrder(d.order) && !WouldOvertake(d)
  {
    var b := LastPending(d.banks);
    if b >= 0 {
      var k := LastOf(d.runs, b);
      assert Holds(d.banks[b], d.runs, b);
      InOrderAppend(d.order, k);
      SendsOldestIff(d, full);
      if InOrder(d.order) {
        NextInOrderIff(d, full);
      }
      hide LastOf, Sent, Concat, InOrder, SendsOldest, WouldOvertake, Tracked;
    }
  }

  /** Over every run of two buffers, messages leave in order exactly when no send overtakes. */
  lemma {:induction false} RunInOrderIff(from: Driver, full: nat, steps: seq<Action>, to: Driver)
    requires 1 < full < TWO_TO_31 && Invariant(from, full) && |from.banks| == 2 && Leads(from, full, steps, to)
    ensures InOrder(to.order) <==> InOrder(from.order) && NoOvertaking(from, full, steps)
    decreases |steps|
  {
    if steps != [] {
      var next := Apply(from, full, steps[0]);
      StepKeeps(from, full, steps[0]);
      if steps[0].Send? {
        SendInOrderIff(from, full, steps[0].start, steps[0].finish);
      }
      assert |next.banks| == 2;
      hide InOrder, WouldOvertake, Invariant;
      RunInOrderIff(next, full, steps[1..], to);
    }
  }

  /** Two buffers of two slots each, nothing sent yet. */
  ghost predicate Looks(d: Driver, stat0: int, stat1: int, runs: nat) {
    && Invariant(d, 2) && |d.banks| == 2 && d.banks[0].stat == stat0 && d.banks[1].stat == stat1
    && |d.runs| == runs && d.order == []
  }

  lemma ArriveLooks(d: Driver, event: Event, runs: nat)
    ensures Looks(d, EMPTY, EMPTY, runs) ==> Looks(Arrived(d, 2, event), FILLING, EMPTY, runs + 1)
    ensures Looks(d, FILLING, EMPTY, runs) ==> Looks(Arrived(d, 2, event), FULL, EMPTY, runs)
    ensures Looks(d, FULL, EMPTY, runs) ==> Looks(Arrived(d, 2, event), FULL, FILLING, runs + 1)
    ensures Looks(d, FULL, FILLING, runs) ==> Looks(Arrived(d, 2, event), FULL, FULL, runs)
  {
    if Invariant(d, 2) && |d.banks| == 2 && NextSlot(d.banks).Slot? {
      ArriveKeeps(d, 2, event);
      AcceptGrows(d.banks, 2, event);
      var b := NextSlot(d.banks).bank;
      assert Holds(d.banks[b], d.runs, b) && d.banks[b].Fits(2);
      hide Accept, Invariant, LastOf;
    }
  }

  /** Three events into two buffers of two: the first is full, the second being filled. */
  lemma ThreeArrivals(event: Event) returns (d: Driver)
    ensures Leads(Start(2, event, 2), 2, [Arrive(event), Arrive(event), Arrive(event)], d)
    ensures Looks(d, FULL, FILLING, 2) && d.runs[1].bank == 1
  {
    var s0 := Start(2, event, 2);
    StartOk(2, event, 2);
    assert Looks(s0, EMPTY, EMPTY, 0);
    ArriveLooks(s0, event, 0);
    var s1 := Arrived(s0, 2, event);
    ArriveLooks(s1, event, 1);
    var s2 := Arrived(s1, 2, event);
    ArriveLooks(s2, event, 1);
    d := Arrived(s2, 2, event);
    SecondOpenedLast(d);
    hide Arrived, Start, Invariant;
    LeadsOn(s0, 2, [], s0, Arrive(event));
    LeadsOn(s0, 2, [Arrive(event)], s1, Arrive(event));
    LeadsOn(s0, 2, [Arrive(event), Arrive(event)], s2, Arrive(event));
  }

  lemma SecondOpenedLast(d: Driver)
    requires Looks(d, FULL, FILLING, 2)
    ensures d.runs[1].bank == 1
  {
    assert Holds(d.banks[1], d.runs, 1);
  }

  lemma ArriveKeepsLast(d: Driver, event: Event)
    requires Looks(d, FULL, FILLING, 2)
    ensures Arrived(d, 2, event).runs[1].bank == 1
  {
    SecondOpenedLast(d);
    ArriveLooks(d, event, 2);
    assert Holds(d.banks[1], d.runs, 1);
    hide Accept, LastOf;
  }

  lemma OvertakingSend(d: Driver, stat1: int, start: Timeb, finish: Timeb)
    requires Looks(d, FULL, stat1, 2) && (stat1 == FILLING || stat1 == FULL) && d.runs[1].bank == 1
    ensures WouldOvertake(d)
    ensures
      var next := Dispatched(d, 2, start, finish);
      Invariant(next, 2) && next.order == [1] && |next.runs| == 2 && next.runs[0].message.None?
  {
    SendKeeps(d, 2, start, finish);
    assert Holds(d.banks[1], d.runs, 1);
    assert LastPending(d.banks) == 1 && LastOf(d.runs, 1) == 1;
    hide LastOf, MakeTrailer, Concat, Sent;
  }

  /** Messages can leave out of order: after three events into two buffers of two, the newer run goes first. */
  lemma OutOfOrderRun(event: Event, start: Timeb, finish: Timeb) returns (d: Driver)
    ensures
      var arrivals := [Arrive(event), Arrive(event), Arrive(event)];
      Leads(Start(2, event, 2), 2, arrivals + [Send(start, finish)], d)
    ensures Invariant(d, 2) && d.order == [1] && |d.runs| == 2 && d.runs[0].message.None?
  {
    var s := ThreeArrivals(event);
    OvertakingSend(s, FILLING, start, finish);
    d := Dispatched(s, 2, start, finish);
    hide Invariant, Start, Dispatched;
    LeadsOn(Start(2, event, 2), 2, [Arrive(event), Arrive(event), Arrive(event)], s, Send(start, finish));
  }

  /** So it is with both buffers full, after four events. */
  lemma BothFullRun(event: Event, start: Timeb, finish: Timeb) returns (s: Driver, d: Driver)
    ensures |s.banks| == 2 && s.banks[0].stat == s.banks[1].stat == FULL && !SendsOldest(s)
    ensures
      var arrivals := [Arrive(event), Arrive(event), Arrive(event)] + [Arrive(event)];
      Leads(Start(2, event, 2), 2, arrivals, s) && Leads(Start(2, event, 2), 2, arrivals + [Send(start, finish)], d)
    ensures Invariant(d, 2) && d.order == [1] && |d.runs| == 2 && d.runs[0].message.None?
  {
    var t := ThreeArrivals(event);
    ArriveLooks(t, event, 2);
    ArriveKeepsLast(t, event);
    s := Arrived(t, 2, event);
    OvertakingSend(s, FULL, start, finish);
    SendsOldestIff(s, 2);
    d := Dispatched(s, 2, start, finish);
    hide Invariant, Start, Dispatched, Arrived, SendsOldest, WouldOvertake;
    var three := [Arrive(event), Arrive(event), Arrive(event)];
    LeadsOn(Start(2, event, 2), 2, three, t, Arrive(event));
    LeadsOn(Start(2, event, 2), 2, three + [Arrive(event)], s, Send(start, finish));
  }
}
