/** From the driver to the rings: what the fragment builder offers each board of the events that the driver accepted. */
module Delivery {
  import opened Words
  import opened Events
  import opened DriverBuffers
  import opened DriverRuns
  import opened DriverTheorems
  import opened SendOrder
  import Demux

  lemma {:induction false} EventsOfRunAccepted(runs: seq<Run>, k: nat, e: Event)
    requires k < |runs| && e in runs[k].events
    ensures e in Concat(runs)
  {
    if k < |runs| - 1 {
      EventsOfRunAccepted(runs[..|runs| - 1], k, e);
    }
  }

  /** Every message sent is one that the fragment builder's demultiplexer splits completely: each board gets its own
      events of the run, in order. */
  lemma MessagesDemultiplex(d: Driver, full: nat, k: nat, calls: seq<Demux.Call>, prefix: nat, mac5: int)
    requires Invariant(d, full) && k < |d.runs| && d.runs[k].message.Some?
    requires forall e | e in d.accepted :: e.mac5 < 256
    ensures
      var r := d.runs[k];
      && Demux.IsMessage(r.message.value, |r.events|)
      && (Demux.AreRuns(calls, r.message.value, prefix, |r.events|) ==>
            Demux.Delivered(calls, r.message.value, prefix + mac5) == Demux.OfBoard(r.events, mac5))
  {
    var r := d.runs[k];
    RunsAreSomewhere(d, full, k);
    assert RunOk(r, |d.banks|, full);
    var n, message := |r.events|, r.message.value;
    forall i | 0 <= i < n ensures message[i].mac5 < 256 {
      assert message[i] == message[..n][i] == r.events[i];
      EventsOfRunAccepted(d.runs, k, r.events[i]);
    }
    if Demux.AreRuns(calls, message, prefix, n) {
      Demux.DeliveredIsOfBoard(calls, message, prefix, n, mac5);
    }
    hide Concat, Tracked, SentOnce, Consistent, Demux.AreRuns, Demux.Delivered, Demux.OfBoard;
  }

  /** The inserts made of the messages, in the order sent: for each one, what the demultiplexing loop promises. */
  ghost predicate AreInserts(d: Driver, calls: seq<seq<Demux.Call>>, prefix: nat) {
    && |calls| == |d.order|
    && forall i | 0 <= i < |calls| ::
         && d.order[i] < |d.runs| && d.runs[d.order[i]].message.Some?
         && var msg := d.runs[d.order[i]].message.value;
            msg != [] && (Demux.ByteSized(msg) ==>
                            Demux.AreRuns(calls[i], msg, prefix, |msg| - Demux.TrailingRun(msg)))
  }

  /** The events that the inserts of the first `n` messages offer to one board. */
  ghost function Offered(d: Driver, calls: seq<seq<Demux.Call>>, prefix: nat, mac5: int, n: nat): seq<Event>
    requires AreInserts(d, calls, prefix) && n <= |calls|
  {
    if n == 0 then []
    else
      Offered(d, calls, prefix, mac5, n - 1)
      + Demux.Delivered(calls[n - 1], d.runs[d.order[n - 1]].message.value, prefix + mac5)
  }

  /** The events of one board in the runs of the first `n` messages. */
  function BoardStream(runs: seq<Run>, order: seq<nat>, mac5: int): seq<Event>
    requires forall i | 0 <= i < |order| :: order[i] < |runs|
  {
    if order == [] then []
    else
      var n := |order| - 1;
      BoardStream(runs, order[..n], mac5) + Demux.OfBoard(runs[order[n]].events, mac5)
  }

  lemma DeliveredOfMessage(d: Driver, full: nat, calls: seq<seq<Demux.Call>>, prefix: nat, mac5: int, i: nat)
    requires Invariant(d, full) && AreInserts(d, calls, prefix) && i < |calls|
    requires forall e | e in d.accepted :: e.mac5 < 256
    ensures Demux.Delivered(calls[i], d.runs[d.order[i]].message.value, prefix + mac5)
         == Demux.OfBoard(d.runs[d.order[i]].events, mac5)
  {
    var k := d.order[i];
    MessagesDemultiplex(d, full, k, calls[i], prefix, mac5);
    Demux.TrailerIsLastRun(d.runs[k].message.value, |d.runs[k].events|);
    hide Invariant, Demux.AreRuns, Demux.Delivered, Demux.OfBoard, Demux.TrailingRun, Demux.IsMessage, Demux.ByteSized;
  }

  lemma {:induction false} OfferedIsStream(d: Driver, full: nat, calls: seq<seq<Demux.Call>>, prefix: nat, mac5: int,
                                           n: nat)
    requires Invariant(d, full) && AreInserts(d, calls, prefix) && n <= |calls|
    requires forall e | e in d.accepted :: e.mac5 < 256
    ensures Offered(d, calls, prefix, mac5, n) == BoardStream(d.runs, d.order[..n], mac5)
  {
    hide Invariant, Demux.Delivered, Demux.OfBoard;
    if n > 0 {
      OfferedIsStream(d, full, calls, prefix, mac5, n - 1);
      DeliveredOfMessage(d, full, calls, prefix, mac5, n - 1);
      assert d.order[..n][..n - 1] == d.order[..n - 1];
    }
  }

  lemma {:induction false} StreamUpTo(runs: seq<Run>, order: seq<nat>, mac5: int, n: nat)
    requires n <= |order| && n <= |runs| && InOrder(order)
    requires forall i | 0 <= i < |order| :: order[i] < |runs|
    ensures BoardStream(runs, order[..n], mac5) == Demux.OfBoard(Concat(runs[..n]), mac5)
  {
    if n > 0 {
      StreamUpTo(runs, order, mac5, n - 1);
      assert order[..n][..n - 1] == order[..n - 1] && runs[..n][..n - 1] == runs[..n - 1];
      Demux.OfBoardAppend(Concat(runs[..n - 1]), runs[n - 1].events, mac5);
    }
    hide Demux.OfBoard;
  }

  lemma {:induction false} ConcatPrefix(runs: seq<Run>, n: nat)
    requires n <= |runs|
    ensures Concat(runs[..n]) <= Concat(runs)
  {
    if n < |runs| {
      ConcatPrefix(runs[..|runs| - 1], n);
      assert runs[..|runs| - 1][..n] == runs[..n];
    } else {
      assert runs[..n] == runs;
    }
  }

  lemma OfBoardPrefix(a: seq<Event>, b: seq<Event>, mac5: int)
    requires a <= b
    ensures Demux.OfBoard(a, mac5) <= Demux.OfBoard(b, mac5)
  {
    Demux.OfBoardAppend(a, b[|a|..], mac5);
    assert b == a + b[|a|..];
    hide Demux.OfBoard;
  }

  lemma InsertsFit(d: Driver, calls: seq<seq<Demux.Call>>, prefix: nat)
    requires AreInserts(d, calls, prefix)
    ensures |calls| == |d.order|
  {}

  /** With messages in order, each board is offered a beginning of its own accepted events, and all of them once nothing
      waits to be sent. */
  lemma OfferedInOrder(d: Driver, full: nat, calls: seq<seq<Demux.Call>>, prefix: nat, mac5: int)
    requires Invariant(d, full) && InOrder(d.order)
    requires AreInserts(d, calls, prefix) && forall e | e in d.accepted :: e.mac5 < 256
    ensures
      var offered := Offered(d, calls, prefix, mac5, |calls|);
      && offered <= Demux.OfBoard(d.accepted, mac5)
      && (|d.order| == |d.runs| ==> offered == Demux.OfBoard(d.accepted, mac5))
  {
    hide Invariant, Demux.OfBoard, Concat, BoardStream, AreInserts, Offered;
    OrderFits(d, full);
    var n := |d.order|;
    InsertsFit(d, calls, prefix);
    OfferedIsStream(d, full, calls, prefix, mac5, n);
    StreamUpTo(d.runs, d.order, mac5, n);
    ConcatPrefix(d.runs, n);
    assert d.order[..n] == d.order;
    assert n == |d.runs| ==> d.runs[..n] == d.runs;
    OfBoardPrefix(Concat(d.runs[..n]), d.accepted, mac5);
  }

  /** Over every run of two buffers in which no send overtakes, each board is offered a beginning of its own accepted
      events, in order of acceptance, and all of them once nothing waits to be sent. */
  lemma InOrderDelivery(blank: Event, full: nat, steps: seq<Action>, d: Driver, calls: seq<seq<Demux.Call>>,
                        prefix: nat, mac5: int)
    requires 1 < full < TWO_TO_31 && Leads(Start(2, blank, full), full, steps, d)
    requires NoOvertaking(Start(2, blank, full), full, steps)
    requires AreInserts(d, calls, prefix) && forall e | e in d.accepted :: e.mac5 < 256
    ensures
      var offered := Offered(d, calls, prefix, mac5, |calls|);
      && offered <= Demux.OfBoard(d.accepted, mac5)
      && (|d.order| == |d.runs| ==> offered == Demux.OfBoard(d.accepted, mac5))
  {
    StartOk(2, blank, full);
    assert |Start(2, blank, full).banks| == 2 && InOrder(Start(2, blank, full).order);
    hide Invariant, Demux.OfBoard, Leads, NoOvertaking, Start, AreInserts, Offered, InOrder;
    RunKeeps(Start(2, blank, full), full, steps, d);
    RunInOrderIff(Start(2, blank, full), full, steps, d);
    OfferedInOrder(d, full, calls, prefix, mac5);
  }

  lemma OrderFits(d: Driver, full: nat)
    requires Invariant(d, full) && InOrder(d.order)
    ensures |d.order| <= |d.runs| && d.accepted == Concat(d.runs)
    ensures forall i | 0 <= i < |d.order| :: d.order[i] < |d.runs|
  {
    assert d.order != [] ==> d.order[|d.order| - 1] in d.order;
  }

  /** One board's events in the runs that were sent. */
  function SentPart(runs: seq<Run>, mac5: int): multiset<Event> {
    if runs == [] then multiset{}
    else
      var last := runs[|runs| - 1];
      SentPart(runs[..|runs| - 1], mac5)
      + (if last.message.Some? then multiset(Demux.OfBoard(last.events, mac5)) else multiset{})
  }

  /** One board's events in the runs that wait in a buffer. */
  function WaitingPart(runs: seq<Run>, mac5: int): multiset<Event> {
    if runs == [] then multiset{}
    else
      var last := runs[|runs| - 1];
      WaitingPart(runs[..|runs| - 1], mac5)
      + (if last.message.None? then multiset(Demux.OfBoard(last.events, mac5)) else multiset{})
  }

  lemma {:induction false} Parts(runs: seq<Run>, mac5: int)
    ensures multiset(Demux.OfBoard(Concat(runs), mac5)) == SentPart(runs, mac5) + WaitingPart(runs, mac5)
  {
    hide Demux.OfBoard;
    if runs == [] {
      NothingOfBoard(mac5);
    } else {
      var n := |runs| - 1;
      Parts(runs[..n], mac5);
      Demux.OfBoardAppend(Concat(runs[..n]), runs[n].events, mac5);
    }
  }

  lemma NothingOfBoard(mac5: int)
    ensures Demux.OfBoard([], mac5) == []
  {}

  function Unsent(runs: seq<Run>, k: nat): (r: seq<Run>)
    requires k < |runs|
    ensures |r| == |runs|
  {
    runs[k := runs[k].(message := None)]
  }

  lemma {:induction false} SentPartWithout(runs: seq<Run>, k: nat, mac5: int)
    requires k < |runs| && runs[k].message.Some?
    ensures SentPart(runs, mac5) == SentPart(Unsent(runs, k), mac5) + multiset(Demux.OfBoard(runs[k].events, mac5))
  {
    hide Demux.OfBoard;
    var n := |runs| - 1;
    if k == n {
      assert Unsent(runs, k)[..n] == runs[..n];
    } else {
      SentPartWithout(runs[..n], k, mac5);
      assert Unsent(runs, k)[..n] == Unsent(runs[..n], k);
    }
  }

  lemma {:induction false} NothingSent(runs: seq<Run>, mac5: int)
    requires forall k | 0 <= k < |runs| :: runs[k].message.None?
    ensures SentPart(runs, mac5) == multiset{}
  {
    if runs != [] {
      NothingSent(runs[..|runs| - 1], mac5);
    }
  }

  lemma {:induction false} StreamWithout(runs: seq<Run>, k: nat, order: seq<nat>, mac5: int)
    requires k < |runs| && forall i | 0 <= i < |order| :: order[i] < |runs|
    ensures BoardStream(Unsent(runs, k), order, mac5) == BoardStream(runs, order, mac5)
  {
    hide Demux.OfBoard;
    if order != [] {
      StreamWithout(runs, k, order[..|order| - 1], mac5);
    }
  }

  lemma TakeBackLast(runs: seq<Run>, order: seq<nat>)
    requires SentOnce(runs, order) && order != []
    ensures
      var n := |order| - 1;
      order[n] < |runs| && runs[order[n]].message.Some? && SentOnce(Unsent(runs, order[n]), order[..n])
  {
    var n := |order| - 1;
    var k, front := order[n], order[..n];
    assert k in order;
    assert forall j | j in front :: j in order;
    forall j | 0 <= j < |runs| && Unsent(runs, k)[j].message.Some? ensures j in front {
      assert j in order && order == front + [k];
    }
  }

  lemma OrderInRange(runs: seq<Run>, order: seq<nat>)
    requires SentOnce(runs, order)
    ensures forall i | 0 <= i < |order| :: order[i] < |runs|
  {
    assert forall i | 0 <= i < |order| :: order[i] in order;
  }

  /** Whatever the order of sending, the stream holds the events of the runs sent, each once. */
  lemma {:induction false} StreamIsSentPart(runs: seq<Run>, order: seq<nat>, mac5: int)
    requires SentOnce(runs, order) && forall i | 0 <= i < |order| :: order[i] < |runs|
    ensures multiset(BoardStream(runs, order, mac5)) == SentPart(runs, mac5)
    decreases |order|
  {
    hide Demux.OfBoard, SentPart;
    if order == [] {
      NothingSent(runs, mac5);
    } else {
      var n := |order| - 1;
      TakeBackLast(runs, order);
      OrderInRange(Unsent(runs, order[n]), order[..n]);
      StreamIsSentPart(Unsent(runs, order[n]), order[..n], mac5);
      StreamWithout(runs, order[n], order[..n], mac5);
      SentPartWithout(runs, order[n], mac5);
    }
  }

  /** Whatever the number of buffers and the order of sending: what a board is offered and what waits for it in the
      buffers are together its accepted events, each once. */
  lemma EveryEventOnce(d: Driver, full: nat, calls: seq<seq<Demux.Call>>, prefix: nat, mac5: int)
    requires Invariant(d, full) && AreInserts(d, calls, prefix)
    requires forall e | e in d.accepted :: e.mac5 < 256
    ensures multiset(Offered(d, calls, prefix, mac5, |calls|)) + WaitingPart(d.runs, mac5)
         == multiset(Demux.OfBoard(d.accepted, mac5))
  {
    hide Consistent, Tracked, Demux.OfBoard, Demux.Delivered, SentPart, WaitingPart, BoardStream, Concat;
    OfferedIsStream(d, full, calls, prefix, mac5, |calls|);
    assert d.order[..|calls|] == d.order;
    OrderInRange(d.runs, d.order);
    StreamIsSentPart(d.runs, d.order, mac5);
    Parts(d.runs, mac5);
  }
}
