/** The inserts that the worker thread makes of a message, while the other thread erases what it has consumed. */
module Worker {
  import opened Words
  import opened Events
  import opened Trailer
  import opened FebBuffer
  import Demux

  /** One insert, and how many entries of its board the other thread erased while it waited for room. */
  datatype Turn = Turn(call: Demux.Call, erased: nat)

  /** One board's rings, and when the last poll recorded in them ended. */
  datatype Board = Board(rings: Rings, lastTimenow: TimeVal, maxTimeDiff: int)

  predicate Within(c: Demux.Call, msg: seq<Event>) {
    c.n > 0 && c.begin + c.n <= |msg|
  }

  predicate AllWithin(turns: seq<Turn>, msg: seq<Event>) {
    forall i | 0 <= i < |turns| :: Within(turns[i].call, msg)
  }

  function AfterTurn(b: Board, t: Turn, msg: seq<Event>): (r: Board)
    requires b.rings.Aligned() && Within(t.call, msg) && t.erased <= |b.rings.events|
    ensures r.rings.Aligned()
  {
    var span := SpanOf(b.lastTimenow, msg[|msg| - 1]);
    var batch := msg[t.call.begin..t.call.begin + t.call.n];
    Board(b.rings.Drop(t.erased).Append(BatchEntries(batch, b.maxTimeDiff, span)), span.1, b.maxTimeDiff)
  }

  /** What the turns make of board `id`. */
  function AfterTurns(b: Board, turns: seq<Turn>, msg: seq<Event>, id: int): (r: Board)
    requires b.rings.Aligned() && AllWithin(turns, msg)
    ensures r.rings.Aligned()
  {
    if turns == [] then b
    else
      var n := |turns| - 1;
      var before := AfterTurns(b, turns[..n], msg, id);
      if turns[n].call.id == id && turns[n].erased <= |before.rings.events| then
        AfterTurn(before, turns[n], msg)
      else
        before
  }

  ghost function BoardOf(feb: FebBuffer): (b: Board)
    requires feb.Valid()
    reads feb
    ensures b.rings.Aligned()
  {
    Board(feb.View(), feb.lastTimenow, feb.maxTimeDiff)
  }

  lemma SliceOfPrefix<T>(s: seq<T>, n: nat, from: nat, to: nat)
    requires from <= to <= n <= |s|
    ensures s[..n][from..to] == s[from..to]
  {}

  /** One turn on its board. */
  method MakeInsert(feb: FebBuffer, zmq: array<Event>, total: nat, t: Turn)
    requires feb.Valid() && 1 <= total <= zmq.Length && Within(t.call, zmq[..total])
    requires t.erased <= |feb.buffer| && t.call.n <= feb.capacity - (|feb.buffer| - t.erased)
    modifies feb`buffer, feb`timebuffer, feb`droppedbuffer, feb`lastTimenow
    ensures feb.Valid() && BoardOf(feb) == AfterTurn(old(BoardOf(feb)), t, zmq[..total])
  {
    hide BatchEntries, SpanOf;
    ghost var msg := zmq[..total];
    var c := t.call;
    SliceOfPrefix(zmq[..], total, c.begin, c.begin + c.n);
    assert zmq[..][..total] == msg && zmq[..][c.begin..c.begin + c.n] == zmq[c.begin..c.begin + c.n];
    var _ := feb.Erase(t.erased);
    var _ := feb.Insert(zmq, c.begin, c.n, total);
  }

  /** The entries that a turn adds carry the span from the end of the last poll recorded, or from the start of
      this one if there is none, to the end of this one. */
  lemma TurnSpans(b: Board, t: Turn, msg: seq<Event>, slot: Event, count: Uint32, start: Timeb, finish: Timeb)
    requires b.rings.Aligned() && Within(t.call, msg) && t.erased <= |b.rings.events|
    requires msg[|msg| - 1] == MakeTrailer(slot, count, start, finish)
    ensures
      var next, kept := AfterTurn(b, t, msg), |b.rings.events| - t.erased;
      && next.lastTimenow == TimeVal(finish.time, finish.millitm * 1000)
      && kept < |next.rings.spans|
      && (forall i | 0 <= i < kept :: next.rings.spans[i] == b.rings.spans[i + t.erased])
      && (forall i | kept <= i < |next.rings.spans| ::
            && next.rings.spans[i].0
               == (if b.lastTimenow.sec != 0 then b.lastTimenow else TimeVal(start.time, start.millitm * 1000))
            && next.rings.spans[i].1 == next.lastTimenow)
  {
    SpanOfTrailer(b.lastTimenow, slot, count, start, finish);
    hide MakeTrailer, SpanOf, GoodCount, Zeros;
  }

  /** So the polls of successive messages abut, and a second run of a board in one message carries an empty span. */
  lemma SecondTurnIsEmpty(b: Board, t: Turn, u: Turn, msg: seq<Event>, slot: Event, count: Uint32, start: Timeb,
                          finish: Timeb)
    requires b.rings.Aligned() && Within(t.call, msg) && Within(u.call, msg) && t.erased <= |b.rings.events|
    requires u.erased <= |AfterTurn(b, t, msg).rings.events|
    requires msg[|msg| - 1] == MakeTrailer(slot, count, start, finish) && finish.time != 0
    ensures
      var spans := AfterTurn(AfterTurn(b, t, msg), u, msg).rings.spans;
      spans != [] && spans[|spans| - 1].0 == spans[|spans| - 1].1 == TimeVal(finish.time, finish.millitm * 1000)
  {
    TurnSpans(b, t, msg, slot, count, start, finish);
    TurnSpans(AfterTurn(b, t, msg), u, msg, slot, count, start, finish);
    hide MakeTrailer, AfterTurn;
  }

  /** No turn erases more than there is. */
  ghost predicate Possible(b: Board, turns: seq<Turn>, msg: seq<Event>, id: int)
    requires b.rings.Aligned() && AllWithin(turns, msg)
  {
    turns == []
    || (var n := |turns| - 1;
        && Possible(b, turns[..n], msg, id)
        && (turns[n].call.id == id ==>
              turns[n].erased <= |AfterTurns(b, turns[..n], msg, id).rings.events|))
  }

  /** The board is what the turns so far made of it. */
  ghost predicate HasTaken(feb: FebBuffer, b: Board, turns: seq<Turn>, msg: seq<Event>, id: int)
    requires AllWithin(turns, msg)
    reads feb
  {
    && feb.Valid() && b.rings.Aligned() && Possible(b, turns, msg, id)
    && BoardOf(feb) == AfterTurns(b, turns, msg, id)
  }

  lemma OneMoreTurn(b: Board, turns: seq<Turn>, t: Turn, msg: seq<Event>, id: int)
    requires b.rings.Aligned() && Within(t.call, msg) && AllWithin(turns, msg)
    requires Possible(b, turns, msg, id)
    requires t.call.id == id ==> t.erased <= |AfterTurns(b, turns, msg, id).rings.events|
    ensures Possible(b, turns + [t], msg, id)
    ensures
      var before := AfterTurns(b, turns, msg, id);
      AfterTurns(b, turns + [t], msg, id)
        == if t.call.id == id then AfterTurn(before, t, msg) else before
  {
    assert (turns + [t])[..|turns|] == turns;
    hide AfterTurn;
  }

  /** Entries of a board that the other thread erases during insert `n`: as many as planned, and at most all. */
  function Erased(schedule: seq<nat>, n: nat, size: nat): (k: nat)
    ensures k <= size
  {
    var k := if n < |schedule| then schedule[n] else 0;
    if k <= size then k else size
  }

  /** The boards as they were before the message. */
  ghost function BoardsOf(febs: map<int, FebBuffer>): (start: map<int, Board>)
    requires forall id | id in febs :: febs[id].Valid()
    reads febs.Values
    ensures start.Keys == febs.Keys
  {
    map id | id in febs :: BoardOf(febs[id])
  }

  /** Every board is what the turns so far made of it. */
  ghost predicate AllTaken(febs: map<int, FebBuffer>, start: map<int, Board>, turns: seq<Turn>, msg: seq<Event>)
    requires start.Keys == febs.Keys && AllWithin(turns, msg)
    reads febs.Values
  {
    forall id | id in febs :: HasTaken(febs[id], start[id], turns, msg, id)
  }

  lemma EveryBoardsTurn(febs: map<int, FebBuffer>, start: map<int, Board>, turns: seq<Turn>, t: Turn,
                        msg: seq<Event>)
    requires start.Keys == febs.Keys && AllWithin(turns, msg) && Within(t.call, msg) && t.call.id in febs
    requires AllTaken(febs, start, turns, msg) && t.erased <= |febs[t.call.id].buffer|
    ensures AllWithin(turns + [t], msg)
    ensures forall id | id in febs ::
              && febs[id].Valid() && start[id].rings.Aligned()
              && Possible(start[id], turns + [t], msg, id)
              && AfterTurns(start[id], turns + [t], msg, id)
                 == if t.call.id == id then AfterTurn(BoardOf(febs[id]), t, msg)
                    else BoardOf(febs[id])
  {
    forall id | id in febs
      ensures febs[id].Valid() && start[id].rings.Aligned()
      ensures Possible(start[id], turns + [t], msg, id)
      ensures AfterTurns(start[id], turns + [t], msg, id)
              == if t.call.id == id then AfterTurn(BoardOf(febs[id]), t, msg)
                 else BoardOf(febs[id])
    {
      OneMoreTurn(start[id], turns, t, msg, id);
    }
    hide AfterTurn, AfterTurns, Possible;
  }

  /** One turn, seen from every board. */
  method MakeTurn(febs: map<int, FebBuffer>, zmq: array<Event>, total: nat, t: Turn,
                  ghost start: map<int, Board>, ghost turns: seq<Turn>)
    requires 1 <= total <= zmq.Length && Within(t.call, zmq[..total]) && t.call.id in febs
    requires AllWithin(turns, zmq[..total]) && start.Keys == febs.Keys && AllTaken(febs, start, turns, zmq[..total])
    requires forall id, other | id in febs && other in febs && id != other :: febs[id] != febs[other]
    requires
      var feb := febs[t.call.id];
      t.erased <= |feb.buffer| && t.call.n <= feb.capacity - (|feb.buffer| - t.erased)
    modifies febs.Values
    ensures AllWithin(turns + [t], zmq[..total]) && AllTaken(febs, start, turns + [t], zmq[..total])
  {
    EveryBoardsTurn(febs, start, turns, t, zmq[..total]);
    hide AfterTurn, AfterTurns, Possible, AllWithin, Within;
    MakeInsert(febs[t.call.id], zmq, total, t);
  }

  lemma NoTurnYet(febs: map<int, FebBuffer>, msg: seq<Event>)
    requires forall id | id in febs :: febs[id].Valid()
    ensures AllWithin([], msg) && AllTaken(febs, BoardsOf(febs), [], msg)
  {}

  /** Insert `n` waits for room, whatever the other thread erases meanwhile. */
  ghost predicate NoRoom(feb: FebBuffer, calls: seq<Demux.Call>, schedule: seq<nat>, n: nat)
    requires n < |calls|
    reads feb
  {
    feb.capacity - |feb.buffer| + Erased(schedule, n, |feb.buffer|) < calls[n].n
  }

  /** All inserts of a message in turn. `schedule` says how many entries the other thread erases while each one waits;
      an insert that still finds no room waits forever, and the ones after it are not made. */
  method MakeInserts(febs: map<int, FebBuffer>, zmq: array<Event>, total: nat, calls: seq<Demux.Call>,
                     schedule: seq<nat>)
    returns (turns: seq<Turn>)
    requires 1 <= total <= zmq.Length
    requires forall i | 0 <= i < |calls| :: Within(calls[i], zmq[..total]) && calls[i].id in febs
    requires forall id | id in febs :: febs[id].Valid()
    requires forall id, other | id in febs && other in febs && id != other :: febs[id] != febs[other]
    modifies febs.Values
    ensures |turns| <= |calls| && forall i | 0 <= i < |turns| :: turns[i].call == calls[i]
    ensures AllWithin(turns, zmq[..total]) && AllTaken(febs, old(BoardsOf(febs)), turns, zmq[..total])
    ensures |turns| < |calls| ==> NoRoom(febs[calls[|turns|].id], calls, schedule, |turns|)
  {
    hide AllTaken, HasTaken, AllWithin, Within, BoardsOf;
    ghost var start := BoardsOf(febs);
    turns := [];
    NoTurnYet(febs, zmq[..total]);
    while |turns| < |calls|
      invariant |turns| <= |calls| && forall i | 0 <= i < |turns| :: turns[i].call == calls[i]
      invariant AllWithin(turns, zmq[..total]) && AllTaken(febs, start, turns, zmq[..total])
    {
      var n := |turns|;
      var c, feb := calls[n], febs[calls[n].id];
      var erased := Erased(schedule, n, |feb.buffer|);
      if feb.capacity - (|feb.buffer| - erased) < c.n {
        return;
      }
      MakeTurn(febs, zmq, total, Turn(c, erased), start, turns);
      turns := turns + [Turn(c, erased)];
    }
  }

  function CallsOf(turns: seq<Turn>): (calls: seq<Demux.Call>)
    ensures |calls| == |turns| && forall i | 0 <= i < |calls| :: calls[i] == turns[i].call
  {
    seq(|turns|, i requires 0 <= i < |turns| => turns[i].call)
  }

  /** Runs of boards are inserts of at least one event of the message, for boards of its events. */
  lemma {:induction false} RunsAreWithin(calls: seq<Demux.Call>, msg: seq<Event>, prefix: nat, upto: nat)
    requires upto <= |msg| && Demux.AreRuns(calls, msg, prefix, upto)
    ensures forall i | 0 <= i < |calls| ::
              && Within(calls[i], msg) && calls[i].begin + calls[i].n <= upto
              && calls[i].id == prefix + msg[calls[i].begin].mac5
  {
    if calls != [] {
      var n := |calls| - 1;
      RunsAreWithin(calls[..n], msg, prefix, calls[n].begin);
      forall i | 0 <= i < n ensures calls[i] == calls[..n][i] {}
    }
  }

  /** The inserts of a message are within it and go to boards of its events. */
  lemma MessageRuns(calls: seq<Demux.Call>, msg: seq<Event>, prefix: nat, ids: set<int>)
    requires msg != [] && Demux.IsMessage(msg, |msg| - 1)
    requires forall i | 0 <= i < |msg| - 1 :: prefix + msg[i].mac5 in ids
    requires Demux.ByteSized(msg) ==> Demux.AreRuns(calls, msg, prefix, |msg| - Demux.TrailingRun(msg))
    ensures Demux.AreRuns(calls, msg, prefix, |msg| - 1)
    ensures forall i | 0 <= i < |calls| :: Within(calls[i], msg) && calls[i].id in ids
  {
    Demux.TrailerIsLastRun(msg, |msg| - 1);
    RunsAreWithin(calls, msg, prefix, |msg| - 1);
  }

  lemma CallsSoFar(turns: seq<Turn>, calls: seq<Demux.Call>)
    requires |turns| <= |calls| && forall i | 0 <= i < |turns| :: turns[i].call == calls[i]
    ensures CallsOf(turns) == calls[..|turns|]
  {}

  /** A message of events and a trailer: every board takes its runs in turn. */
  method GetData(febs: map<int, FebBuffer>, zmq: array<Event>, total: nat, firstId: nat, schedule: seq<nat>)
    returns (turns: seq<Turn>, ghost calls: seq<Demux.Call>)
    requires 1 <= total <= zmq.Length && Demux.IsMessage(zmq[..total], total - 1)
    requires forall i | 0 <= i < total - 1 :: Demux.Prefix(firstId) + zmq[i].mac5 in febs
    requires forall id | id in febs :: febs[id].Valid()
    requires forall id, other | id in febs && other in febs && id != other :: febs[id] != febs[other]
    modifies febs.Values
    ensures Demux.AreRuns(calls, zmq[..total], Demux.Prefix(firstId), total - 1)
    ensures |turns| <= |calls| && CallsOf(turns) == calls[..|turns|]
    ensures AllWithin(turns, zmq[..total]) && AllTaken(febs, old(BoardsOf(febs)), turns, zmq[..total])
    ensures |turns| < |calls| ==> calls[|turns|].id in febs && NoRoom(febs[calls[|turns|].id], calls, schedule, |turns|)
  {
    hide AllTaken, AllWithin, Within, BoardsOf, NoRoom, CallsOf, Demux.AreRuns, Demux.IsMessage, Demux.ByteSized;
    var cs := Demux.GetData(zmq, total, firstId);
    calls := cs;
    MessageRuns(calls, zmq[..total], Demux.Prefix(firstId), febs.Keys);
    turns := MakeInserts(febs, zmq, total, cs, schedule);
    CallsSoFar(turns, calls);
  }

  /** What the entries of board `id` that were erased during the turns stood for. */
  function WeightErased(b: Board, turns: seq<Turn>, msg: seq<Event>, id: int): int
    requires b.rings.Aligned() && AllWithin(turns, msg)
  {
    if turns == [] then 0
    else
      var n := |turns| - 1;
      var before := AfterTurns(b, turns[..n], msg, id).rings;
      WeightErased(b, turns[..n], msg, id)
      + (if turns[n].call.id == id && turns[n].erased <= |before.events| then
           Weight(before) - Weight(before.Drop(turns[n].erased))
         else 0)
  }

  lemma TurnWeight(b: Board, t: Turn, msg: seq<Event>)
    requires b.rings.Aligned() && Within(t.call, msg) && t.erased <= |b.rings.events|
    ensures Weight(AfterTurn(b, t, msg).rings) == Weight(b.rings.Drop(t.erased)) + t.call.n
  {
    var span := SpanOf(b.lastTimenow, msg[|msg| - 1]);
    var batch := msg[t.call.begin..t.call.begin + t.call.n];
    BatchWeight(batch, b.maxTimeDiff, span);
    WeightAppend(b.rings.Drop(t.erased), BatchEntries(batch, b.maxTimeDiff, span));
    hide Weight, BatchEntries;
  }

  /** No event of the message that is given to a board goes unaccounted, whatever the other thread erases meanwhile. */
  lemma {:induction false} TurnsAccounted(b: Board, turns: seq<Turn>, msg: seq<Event>, id: int)
    requires b.rings.Aligned() && AllWithin(turns, msg)
    requires Possible(b, turns, msg, id)
    ensures Weight(b.rings) + |Demux.Delivered(CallsOf(turns), msg, id)|
         == Weight(AfterTurns(b, turns, msg, id).rings) + WeightErased(b, turns, msg, id)
  {
    hide Weight, AfterTurn;
    if turns != [] {
      var n := |turns| - 1;
      TurnsAccounted(b, turns[..n], msg, id);
      assert CallsOf(turns)[..n] == CallsOf(turns[..n]);
      if turns[n].call.id == id {
        TurnWeight(AfterTurns(b, turns[..n], msg, id), turns[n], msg);
      }
    }
  }

  /** When all inserts of a message could be made, a board's rings, refused counts and erasures account for exactly its
      own events of the message. */
  lemma MessageAccounted(b: Board, turns: seq<Turn>, msg: seq<Event>, prefix: nat, mac5: int)
    requires msg != [] && Demux.AreRuns(CallsOf(turns), msg, prefix, |msg| - 1)
    requires b.rings.Aligned() && AllWithin(turns, msg) && Possible(b, turns, msg, prefix + mac5)
    ensures
      var id := prefix + mac5;
      Weight(b.rings) + |Demux.OfBoard(msg[..|msg| - 1], mac5)|
        == Weight(AfterTurns(b, turns, msg, id).rings) + WeightErased(b, turns, msg, id)
  {
    TurnsAccounted(b, turns, msg, prefix + mac5);
    Demux.DeliveredIsOfBoard(CallsOf(turns), msg, prefix, |msg| - 1, mac5);
  }
}
