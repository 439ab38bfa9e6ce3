/** The accounts of one poll of all boards: losses and events per board against the driver's running totals. */
module PollAccounting {
  import opened Words
  import opened Events
  import opened DriverBuffers
  import opened DriverRuns
  import opened PacketFormat
  import opened PacketDecode

  /** Start of a poll. */
  function Setup(c: Counters): (r: Counters)
    requires c.Valid()
    ensures r.Valid()
  {
    var zeros := seq(BOARDS, _ => 0);
    c.(overwritten := 0, lostInFpga := 0, lostCpu := zeros, lostFpga := zeros, events := zeros)
  }

  /** When a board has no more data, the last record's count of overwritten events is charged to the board of the last
      packet. */
  function ChargeOverwritten(c: Counters, source: Octet): (r: Counters)
    requires c.Valid()
    ensures r.Valid()
  {
    c.(totalLost := ToUint32(c.totalLost + c.overwritten), lostCpu := Add(c.lostCpu, source, c.overwritten))
  }

  datatype PollStep =
    | Data(memory: Memory, datalen: int, source: Octet)
    | EndOfBoard(source: Octet)

  function PollOne(p: PollStep, full: nat, s: State): (r: State)
    requires s.Valid(full)
    ensures r.Valid(full)
  {
    match p
    case Data(memory, datalen, source) => Process(memory, 0, datalen, source, full, s)
    case EndOfBoard(source) => s.(counters := ChargeOverwritten(s.counters, source))
  }

  function Poll(steps: seq<PollStep>, full: nat, s: State): (r: State)
    requires s.Valid(full)
    ensures r.Valid(full)
    decreases |steps|
  {
    if steps == [] then s else Poll(steps[1..], full, PollOne(steps[0], full, s))
  }

  lemma {:induction false} PollAppend(front: seq<PollStep>, rest: seq<PollStep>, full: nat, s: State)
    requires s.Valid(full)
    ensures Poll(front + rest, full, s) == Poll(rest, full, Poll(front, full, s))
    decreases |front|
  {
    hide PollOne;
    if front == [] {
      assert front + rest == rest;
    } else {
      assert (front + rest)[1..] == front[1..] + rest;
      PollAppend(front[1..], rest, full, PollOne(front[0], full, s));
    }
  }

  function Total(perBoard: seq<int>): int {
    if perBoard == [] then 0 else Total(perBoard[..|perBoard| - 1]) + perBoard[|perBoard| - 1]
  }

  lemma {:induction false} TotalUpdate(perBoard: seq<int>, b: nat, x: int)
    requires b < |perBoard|
    ensures Total(perBoard[b := x]) == Total(perBoard) - perBoard[b] + x
  {
    var n := |perBoard| - 1;
    if b == n {
      assert perBoard[b := x][..n] == perBoard[..n];
    } else {
      TotalUpdate(perBoard[..n], b, x);
      assert perBoard[b := x][..n] == perBoard[..n][b := x];
    }
  }

  /** Charging one board changes the sum by the charge, up to wrap-around. */
  lemma TotalAdd(perBoard: seq<int>, board: Octet, n: int) returns (q: int)
    requires |perBoard| == BOARDS
    ensures Total(Add(perBoard, board, n)) == Total(perBoard) + n + q * TWO_TO_32
  {
    q := ToInt32Congruent(perBoard[board] + n);
    TotalUpdate(perBoard, board, ToInt32(perBoard[board] + n));
    hide ToInt32, Total;
  }

  lemma Carried(total: Uint32, x: int, y: int, n: int, q: int)
    requires total == ToUint32(x) && y == x + n + q * TWO_TO_32
    ensures ToUint32(total + n) == ToUint32(y)
  {
    ToUint32Plus(x, n);
    ToUint32Shift(x + n, q);
    hide ToUint32;
  }

  /** The totals have grown by what the per-board counters show, and acquired events are the slots taken. */
  ghost predicate Balanced(s: State, lost: int, acquired: int, before: int) {
    && s.counters.totalLost == ToUint32(lost + Total(s.counters.lostCpu) + Total(s.counters.lostFpga))
    && s.counters.totalAcquired == ToUint32(acquired + Total(s.counters.events))
    && s.counters.totalAcquired == ToUint32(acquired + (|s.accepted| - before))
  }

  lemma {:induction false} TotalOfZeros(n: nat)
    ensures Total(seq(n, _ => 0)) == 0
  {
    if n > 0 {
      TotalOfZeros(n - 1);
      assert seq(n, _ => 0)[..n - 1] == seq(n - 1, _ => 0);
    }
  }

  lemma SetupBalances(s: State)
    requires s.counters.Valid()
    ensures Balanced(s.(counters := Setup(s.counters)), s.counters.totalLost, s.counters.totalAcquired, |s.accepted|)
  {
    TotalOfZeros(BOARDS);
    hide Total;
  }

  lemma LossBalances(s: State, memory: Memory, j: nat, source: Octet, lost: int, acquired: int, before: int)
    requires s.counters.Valid() && Balanced(s, lost, acquired, before)
    ensures Balanced(s.(counters := Counted(s.counters, memory, j, source)), lost, acquired, before)
  {
    hide Total, Add, Word16, Word32, Reference, EventTime, ToUint32;
    var c, n := s.counters, Word16(memory, j + 2);
    var q := TotalAdd(c.lostFpga, source, n);
    var x := lost + Total(c.lostCpu) + Total(c.lostFpga);
    Carried(c.totalLost, x, x + n + q * TWO_TO_32, n, q);
  }

  lemma EventBalances(s: State, full: nat, event: Event, source: Octet, lost: int, acquired: int, before: int)
    requires s.Valid(full) && Balanced(s, lost, acquired, before)
    ensures Balanced(Stored(s, full, event, source), lost, acquired, before)
  {
    hide Total, Add, Accept, ToUint32, Consistent;
    var c := s.counters;
    var q := TotalAdd(c.events, source, 1);
    var x, y := acquired + Total(c.events), acquired + (|s.accepted| - before);
    Carried(c.totalAcquired, x, x + 1 + q * TWO_TO_32, 1, q);
    Carried(c.totalAcquired, y, y + 1 + 0 * TWO_TO_32, 1, 0);
  }

  lemma ChargeBalances(s: State, source: Octet, lost: int, acquired: int, before: int)
    requires s.counters.Valid() && Balanced(s, lost, acquired, before)
    ensures Balanced(s.(counters := ChargeOverwritten(s.counters, source)), lost, acquired, before)
  {
    hide Total, Add, ToUint32;
    var c := s.counters;
    var q := TotalAdd(c.lostCpu, source, c.overwritten);
    var x := lost + Total(c.lostCpu) + Total(c.lostFpga);
    Carried(c.totalLost, x, x + c.overwritten + q * TWO_TO_32, c.overwritten, q);
  }

  lemma {:induction false} ProcessBalances(memory: Memory, j: nat, datalen: int, source: Octet, full: nat, s: State,
                                           lost: int, acquired: int, before: int)
    requires s.Valid(full) && Balanced(s, lost, acquired, before)
    ensures Balanced(Process(memory, j, datalen, source, full, s), lost, acquired, before)
    decreases datalen - j
  {
    hide Counted, Stored, Received, Consistent;
    if j < datalen {
      var (next, t) := Step(memory, j, source, full, s);
      LossBalances(s, memory, j, source, lost, acquired, before);
      var counted := s.(counters := Counted(s.counters, memory, j, source));
      if NextSlot(s.banks).Slot? {
        EventBalances(counted, full, Received(memory, j, source, full, s.banks), source, lost, acquired, before);
      }
      hide Total, ToUint32;
      assert Balanced(t, lost, acquired, before);
      hide Balanced, Step;
      ProcessBalances(memory, next, datalen, source, full, t, lost, acquired, before);
    }
  }

  /** At every point of a poll, over any packets of any boards: the growth of the losses is the sum of both loss arrays,
      and the growth of the events acquired is the sum of the event counts and the number of slots taken, in 32 bits. */
  lemma {:induction false} PollBalances(steps: seq<PollStep>, full: nat, s: State, lost: int, acquired: int,
                                        before: int)
    requires s.Valid(full) && Balanced(s, lost, acquired, before)
    ensures Balanced(Poll(steps, full, s), lost, acquired, before)
    decreases |steps|
  {
    hide Balanced, Process, ChargeOverwritten;
    if steps != [] {
      match steps[0]
      case Data(memory, datalen, source) =>
        ProcessBalances(memory, 0, datalen, source, full, s, lost, acquired, before);
        PollBalances(steps[1..], full, PollOne(steps[0], full, s), lost, acquired, before);
      case EndOfBoard(source) =>
        ChargeBalances(s, source, lost, acquired, before);
        PollBalances(steps[1..], full, PollOne(steps[0], full, s), lost, acquired, before);
    }
  }

  /** For a whole poll. */
  lemma PollAccounts(steps: seq<PollStep>, full: nat, s: State)
    requires s.Valid(full)
    ensures
      var t := Poll(steps, full, s.(counters := Setup(s.counters)));
      Balanced(t, s.counters.totalLost, s.counters.totalAcquired, |s.accepted|)
  {
    SetupBalances(s);
    hide Balanced, Setup;
    PollBalances(steps, full, s.(counters := Setup(s.counters)), s.counters.totalLost, s.counters.totalAcquired,
                 |s.accepted|);
  }

  function EventsOf(steps: seq<Action>): seq<Event> {
    if steps == [] then []
    else (if steps[0].Arrive? then [steps[0].event] else []) + EventsOf(steps[1..])
  }

  /** A packet is a run of arrivals of events that carry their board's number. */
  lemma {:induction false} PacketIsArrivals(memory: Memory, j: nat, datalen: int, source: Octet, full: nat, s: State,
                                            d: Driver)
    returns (steps: seq<Action>, e: Driver)
    requires s.Valid(full) && d.banks == s.banks
    ensures Leads(d, full, steps, e)
    ensures forall a | a in steps :: a.Arrive? && a.event.mac5 == source && 5 <= a.event.Time() <= 0x4000_0004
    ensures
      var t := Process(memory, j, datalen, source, full, s);
      && e.banks == t.banks
      && t.accepted == s.accepted + EventsOf(steps) && e.accepted == d.accepted + EventsOf(steps)
    decreases datalen - j
  {
    hide Counted, Stored, Consistent;
    if j >= datalen {
      steps, e := [], d;
      assert EventsOf(steps) == [];
    } else {
      var (next, t) := Step(memory, j, source, full, s);
      if NextSlot(s.banks).NoSlot? {
        steps, e := PacketIsArrivals(memory, next, datalen, source, full, t, d);
      } else {
        var event := Received(memory, j, source, full, s.banks);
        var a := Arrived(d, full, event);
        StoredIsArrived(s.(counters := Counted(s.counters, memory, j, source)), full, event, source, d);
        var rest;
        rest, e := PacketIsArrivals(memory, next, datalen, source, full, t, a);
        steps := [Arrive(event)] + rest;
        assert steps[1..] == rest;
        AppendTwice(s.accepted, event, EventsOf(rest));
        AppendTwice(d.accepted, event, EventsOf(rest));
      }
    }
  }

  lemma AppendTwice(front: seq<Event>, event: Event, rest: seq<Event>)
    ensures front + [event] + rest == front + ([event] + rest)
  {}

  lemma StoredIsArrived(s: State, full: nat, event: Event, source: Octet, d: Driver)
    requires s.Valid(full) && d.banks == s.banks && NextSlot(s.banks).Slot?
    ensures
      var a, t := Arrived(d, full, event), Stored(s, full, event, source);
      && a.banks == t.banks && a.accepted == d.accepted + [event] && t.accepted == s.accepted + [event]
  {}
}
