/** The driver's buffers go round: what the callback gives back can be filled again. */
module BufferReuse {
  import opened Words
  import opened Events
  import opened Trailer
  import opened DriverBuffers
  import opened DriverRuns
  import opened DriverTheorems
  import opened PacketDecode

  /** Events that the buffers hold back: those waiting, and a whole buffer for each message in flight. */
  function HeldBack(banks: seq<Bank>, full: nat): int {
    if banks == [] then 0
    else
      var last := banks[|banks| - 1];
      HeldBack(banks[..|banks| - 1], full)
      + (if last.stat == EMPTY then 0 else if last.stat == IN_FLIGHT then full else last.num)
  }

  /** Room and what is held back make up all buffers. */
  lemma {:induction false} RoomBalance(banks: seq<Bank>, full: nat)
    requires forall i | 0 <= i < |banks| :: banks[i].Fits(full)
    ensures Room(banks, full) + HeldBack(banks, full) == |banks| * full
  {
    if banks != [] {
      var n := |banks| - 1;
      RoomBalance(banks[..n], full);
      assert banks[n].Fits(full);
      assert |banks| * full == n * full + full;
    }
  }

  /** When every message has been given back and nothing waits, there is room for as many events as all buffers hold. */
  lemma {:induction false} AllBack(banks: seq<Bank>, full: nat)
    requires forall i | 0 <= i < |banks| :: banks[i].Fits(full)
    requires forall i | 0 <= i < |banks| :: banks[i].stat != IN_FLIGHT && !banks[i].IsPending()
    ensures Room(banks, full) == |banks| * full
  {
    RoomBalance(banks, full);
    NothingHeld(banks, full);
  }

  lemma {:induction false} NothingHeld(banks: seq<Bank>, full: nat)
    requires forall i | 0 <= i < |banks| :: banks[i].Fits(full) && banks[i].stat != IN_FLIGHT && !banks[i].IsPending()
    ensures HeldBack(banks, full) == 0
  {
    if banks != [] {
      NothingHeld(banks[..|banks| - 1], full);
    }
  }

  /** The callback of a buffer in flight gives room for a whole buffer, and changes no other buffer, nor what was
      accepted and sent. */
  lemma CallbackGivesRoom(d: Driver, full: nat, b: nat)
    requires Consistent(d.banks, full) && 1 < full < TWO_TO_31 && b < |d.banks| && d.banks[b].stat == IN_FLIGHT
    ensures
      var e := Apply(d, full, Free(b));
      && Room(e.banks, full) == Room(d.banks, full) + full
      && |e.banks| == |d.banks| && e.banks[b].stat == EMPTY && e.banks[b].num == 0
      && (forall x | 0 <= x < |d.banks| && x != b :: e.banks[x] == d.banks[x])
      && e.accepted == d.accepted && e.runs == d.runs && e.order == d.order
  {
    var e := Apply(d, full, Free(b));
    RoomOfUpdate(d.banks, full, b, e.banks[b]);
    assert e.banks == d.banks[b := e.banks[b]];
  }

  /** When no buffer is being filled or empty, an arrival is lost; after the callback of a buffer, it is stored in the
      first slot of that buffer. */
  lemma CallbackLetsFill(d: Driver, full: nat, b: nat, event: Event)
    requires Consistent(d.banks, full) && 1 < full < TWO_TO_31 && b < |d.banks| && d.banks[b].stat == IN_FLIGHT
    requires forall x | 0 <= x < |d.banks| :: d.banks[x].stat == FULL || d.banks[x].stat == IN_FLIGHT
    ensures Apply(d, full, Arrive(event)) == d
    ensures
      var freed := Apply(d, full, Free(b));
      Consistent(freed.banks, full)
      && var e := Apply(freed, full, Arrive(event));
         && e.banks[b].slots[0] == event && e.banks[b].num == 1 && e.banks[b].stat == FILLING
         && (forall x | 0 <= x < |d.banks| && x != b :: e.banks[x] == d.banks[x])
         && e.accepted == d.accepted + [event]
  {
    var freed := Apply(d, full, Free(b));
    FreeKeepsConsistent(d.banks, full, b);
    assert freed.banks[b].Fits(full);
    assert NextSlot(freed.banks) == Slot(b, 0);
    hide LastOf;
  }

  /** Number of buffers with a status. */
  function CountWith(banks: seq<Bank>, stat: int): nat {
    if banks == [] then 0
    else CountWith(banks[..|banks| - 1], stat) + (if banks[|banks| - 1].stat == stat then 1 else 0)
  }

  lemma {:induction false} CountOfUpdate(banks: seq<Bank>, b: nat, bank: Bank, stat: int)
    requires b < |banks|
    ensures CountWith(banks[b := bank], stat)
         == CountWith(banks, stat) - (if banks[b].stat == stat then 1 else 0) + (if bank.stat == stat then 1 else 0)
  {
    var n := |banks| - 1;
    if b == n {
      assert banks[b := bank][..n] == banks[..n];
    } else {
      CountOfUpdate(banks[..n], b, bank, stat);
      assert banks[b := bank][..n] == banks[..n][b := bank];
    }
  }

  /** Sends and callbacks still to come. */
  function ToCome(banks: seq<Bank>): nat {
    2 * CountWith(banks, FILLING) + 2 * CountWith(banks, FULL) + CountWith(banks, IN_FLIGHT)
  }

  lemma SendAdvances(d: Driver, full: nat, start: Timeb, finish: Timeb)
    requires Consistent(d.banks, full) && 1 < full < TWO_TO_31 && LastPending(d.banks) >= 0
    ensures ToCome(Apply(d, full, Send(start, finish)).banks) < ToCome(d.banks)
    ensures Apply(d, full, Send(start, finish)).accepted == d.accepted
  {
    var b := LastPending(d.banks);
    var bank := Sent(d.banks, full, start, finish)[b];
    hide MakeTrailer, LastOf;
    assert Apply(d, full, Send(start, finish)).banks == d.banks[b := bank];
    CountOfUpdate(d.banks, b, bank, FILLING);
    CountOfUpdate(d.banks, b, bank, FULL);
    CountOfUpdate(d.banks, b, bank, IN_FLIGHT);
  }

  lemma CallbackAdvances(d: Driver, full: nat, b: nat)
    requires Consistent(d.banks, full) && 1 < full < TWO_TO_31 && b < |d.banks| && d.banks[b].stat == IN_FLIGHT
    ensures ToCome(Apply(d, full, Free(b)).banks) < ToCome(d.banks)
  {
    CallbackGivesRoom(d, full, b);
    var bank := Apply(d, full, Free(b)).banks[b];
    assert Apply(d, full, Free(b)).banks == d.banks[b := bank];
    CountOfUpdate(d.banks, b, bank, FILLING);
    CountOfUpdate(d.banks, b, bank, FULL);
    CountOfUpdate(d.banks, b, bank, IN_FLIGHT);
  }

  /** No arrivals after the first `n` steps. */
  ghost predicate NoArrivals(steps: seq<Action>, n: nat) {
    forall i | n <= i < |steps| :: !steps[i].Arrive?
  }

  /** From every state of every run, sends and callbacks alone lead to one in which all buffers are empty. */
  lemma {:induction false} CanEmpty(from: Driver, full: nat, steps: seq<Action>, d: Driver, n: nat)
    returns (more: seq<Action>, e: Driver)
    requires 1 < full < TWO_TO_31 && Leads(from, full, steps, d) && Invariant(d, full)
    requires n <= |steps| && NoArrivals(steps, n)
    ensures Leads(from, full, more, e) && Invariant(e, full) && n <= |more| && more[..n] == steps[..n]
    ensures NoArrivals(more, n) && e.accepted == d.accepted && |e.banks| == |d.banks|
    ensures forall x | 0 <= x < |e.banks| :: e.banks[x].stat == EMPTY
    decreases ToCome(d.banks)
  {
    var b := FirstWith(d.banks, IN_FLIGHT, 0);
    if LastPending(d.banks) >= 0 {
      var a := Send(Timeb(0, 0, 0, 0), Timeb(0, 0, 0, 0));
      SendAdvances(d, full, a.start, a.finish);
      more, e := CanEmptyAfter(from, full, steps, d, n, a);
    } else if b < |d.banks| {
      CallbackAdvances(d, full, b);
      more, e := CanEmptyAfter(from, full, steps, d, n, Free(b));
    } else {
      more, e := steps, d;
      assert forall x | 0 <= x < |d.banks| :: d.banks[x].Fits(full);
    }
  }

  lemma CanEmptyAfter(from: Driver, full: nat, steps: seq<Action>, d: Driver, n: nat, a: Action)
    returns (more: seq<Action>, e: Driver)
    requires 1 < full < TWO_TO_31 && Leads(from, full, steps, d) && Invariant(d, full)
    requires n <= |steps| && NoArrivals(steps, n) && !a.Arrive? && Enabled(d, a)
    requires ToCome(Apply(d, full, a).banks) < ToCome(d.banks)
    ensures Leads(from, full, more, e) && Invariant(e, full) && n <= |more| && more[..n] == steps[..n]
    ensures NoArrivals(more, n) && e.accepted == d.accepted && |e.banks| == |d.banks|
    ensures forall x | 0 <= x < |e.banks| :: e.banks[x].stat == EMPTY
    decreases ToCome(d.banks), 0
  {
    hide Leads, Tracked, SentOnce, Consistent, Concat, Apply, ToCome, Enabled;
    LeadsOn(from, full, steps, d, a);
    StepKeeps(d, full, a);
    SameAccepted(d, full, a);
    more, e := CanEmpty(from, full, steps + [a], Apply(d, full, a), n);
  }

  lemma SameAccepted(d: Driver, full: nat, a: Action)
    requires Consistent(d.banks, full) && 1 < full < TWO_TO_31 && Enabled(d, a) && !a.Arrive?
    ensures Apply(d, full, a).accepted == d.accepted && |Apply(d, full, a).banks| == |d.banks|
  {}

  /** So no run of arrivals, sends and callbacks wears the buffers out: it can always go on to a state in which
      they have room for all they hold, and every event accepted is in a message. */
  lemma AlwaysRecovers(n: nat, blank: Event, full: nat, steps: seq<Action>, d: Driver)
    returns (more: seq<Action>, e: Driver)
    requires 1 < full < TWO_TO_31 && Leads(Start(n, blank, full), full, steps, d)
    ensures |steps| <= |more| && more[..|steps|] == steps && NoArrivals(more, |steps|)
    ensures Leads(Start(n, blank, full), full, more, e) && e.accepted == d.accepted
    ensures Room(e.banks, full) == n * full && SentEvents(e.runs) == |e.accepted|
  {
    var from := Start(n, blank, full);
    StartOk(n, blank, full);
    assert |from.banks| == n;
    hide Start, Leads, Tracked, SentOnce, Concat, Apply;
    RunKeeps(from, full, steps, d);
    SameBuffers(from, full, steps, d);
    more, e := CanEmpty(from, full, steps, d, |steps|);
    AllBack(e.banks, full);
    Conservation(e, full);
    NothingPending(e.banks);
  }

  lemma {:induction false} SameBuffers(from: Driver, full: nat, steps: seq<Action>, to: Driver)
    requires 1 < full < TWO_TO_31 && Leads(from, full, steps, to)
    ensures |to.banks| == |from.banks|
    decreases |steps|
  {
    if steps != [] {
      SameBuffers(Apply(from, full, steps[0]), full, steps[1..], to);
    }
    hide LastOf, MakeTrailer;
  }

  lemma {:induction false} NothingPending(banks: seq<Bank>)
    requires forall x | 0 <= x < |banks| :: banks[x].stat == EMPTY
    ensures PendingEvents(banks) == 0
  {
    if banks != [] {
      NothingPending(banks[..|banks| - 1]);
    }
  }
}
