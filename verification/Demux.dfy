/** Splitting a published message by board. */
module Demux {
  import opened Words
  import opened Events
  import opened Trailer

  /** One insert: `n` records of the message from `begin` go to board `id`. */
  datatype Call = Call(id: int, begin: nat, n: nat)

  /** A board id is the configured prefix with the board's number in its low byte. */
  function Prefix(firstId: nat): nat {
    firstId - firstId % 256
  }

  /** `m` events with a byte-sized board number, then the trailer. */
  ghost predicate IsMessage(msg: seq<Event>, m: nat) {
    && 1 <= m && |msg| == m + 1
    && (forall i | 0 <= i < m :: msg[i].mac5 < 256)
    && msg[m].mac5 == TRAILER_MARK
  }

  /** The call takes consecutive events of its own board only. */
  ghost predicate IsBoardRun(c: Call, msg: seq<Event>, prefix: nat) {
    && 1 <= c.n && c.begin + c.n <= |msg|
    && forall j | c.begin <= j < c.begin + c.n :: prefix + msg[j].mac5 == c.id
  }

  /** The calls cut the first `upto` events into maximal runs of one board each, in order and without gap. */
  ghost predicate AreRuns(calls: seq<Call>, msg: seq<Event>, prefix: nat, upto: nat) {
    if calls == [] then upto == 0
    else
      var before, last := calls[..|calls| - 1], calls[|calls| - 1];
      && last.begin + last.n == upto && IsBoardRun(last, msg, prefix)
      && AreRuns(before, msg, prefix, last.begin)
      && (before != [] ==> before[|before| - 1].id != last.id)
  }

  lemma AddRun(calls: seq<Call>, msg: seq<Event>, prefix: nat, last: Call)
    requires AreRuns(calls, msg, prefix, last.begin) && IsBoardRun(last, msg, prefix)
    requires calls != [] ==> calls[|calls| - 1].id != last.id
    ensures AreRuns(calls + [last], msg, prefix, last.begin + last.n)
  {
    assert (calls + [last])[..|calls|] == calls;
  }

  /** Length of the longest run of one board number at the end. */
  function TrailingRun(msg: seq<Event>): (n: nat)
    requires msg != []
    ensures 1 <= n <= |msg|
    ensures forall j | |msg| - n <= j < |msg| :: msg[j].mac5 == msg[|msg| - 1].mac5
    ensures n < |msg| ==> msg[|msg| - n - 1].mac5 != msg[|msg| - 1].mac5
  {
    var n := |msg|;
    if n > 1 && msg[n - 2].mac5 == msg[n - 1].mac5 then TrailingRun(msg[..n - 1]) + 1 else 1
  }

  /** Only the last record may have a board number of more than a byte, and not if it is the first one too. */
  ghost predicate ByteSized(msg: seq<Event>) {
    && msg != [] && msg[0].mac5 < 256
    && forall i | 0 <= i < |msg| - 1 :: msg[i].mac5 < 256
  }

  /** The loop has seen the first `i` records, of which the last `run` are not inserted yet. */
  ghost predicate Scanned(calls: seq<Call>, msg: seq<Event>, prefix: nat, i: nat, run: int, prevMac: int)
    requires i <= |msg| && msg != []
  {
    if i == 0 then calls == [] && run == 0 && prevMac == prefix + msg[0].mac5
    else
      && (i == 1 && msg[0].mac5 >= 256 ==> |calls| == 1 && calls[0].n == 0)
      && (ByteSized(msg) ==>
            && run == TrailingRun(msg[..i]) && prevMac == prefix + msg[i - 1].mac5
            && AreRuns(calls, msg, prefix, i - run)
            && (calls != [] ==> calls[|calls| - 1].id != prevMac))
  }

  /** The worker's loop: a run is inserted when the board number changes, so the last run, whatever it is, is not. A
      trailer alone would make an insert of no records. */
  method GetData(zmq: array<Event>, total: nat, firstId: nat) returns (calls: seq<Call>)
    requires total <= zmq.Length
    ensures total == 0 ==> calls == []
    ensures total == 1 && zmq[0].mac5 >= 256 ==> |calls| == 1 && calls[0].n == 0
    ensures
      var msg := zmq[..total];
      ByteSized(msg) ==> AreRuns(calls, msg, Prefix(firstId), |msg| - TrailingRun(msg))
  {
    hide AreRuns, TrailingRun;
    calls := [];
    if total == 0 {
      return;
    }
    ghost var msg := zmq[..total];
    var i, run: nat := 0, 0;
    var prevMac: int := firstId - firstId % 256 + zmq[0].mac5;
    while i < total
      invariant i <= total && run <= i && Scanned(calls, msg, Prefix(firstId), i, run, prevMac)
    {
      hide Scanned;
      var event := zmq[i];
      ScanNext(calls, msg, Prefix(firstId), i, run, prevMac);
      if prevMac % 256 != event.mac5 {
        calls := calls + [Call(prevMac, i - run, run)];
        run := 0;
      }
      prevMac := prevMac - prevMac % 256 + event.mac5;
      i := i + 1;
      run := run + 1;
    }
    assert msg[..total] == msg;
  }

  lemma SplitId(prefix: nat, mac5: Uint16)
    requires prefix % 256 == 0
    ensures (prefix + mac5) % 256 == mac5 <==> mac5 < 256
    ensures mac5 < 256 ==> prefix + mac5 - (prefix + mac5) % 256 == prefix
  {}

  /** One turn of the loop. */
  lemma ScanNext(calls: seq<Call>, msg: seq<Event>, prefix: nat, i: nat, run: nat, prevMac: int)
    requires i < |msg| && run <= i && prefix % 256 == 0 && Scanned(calls, msg, prefix, i, run, prevMac)
    ensures
      var changed := prevMac % 256 != msg[i].mac5;
      Scanned(if changed then calls + [Call(prevMac, i - run, run)] else calls, msg, prefix, i + 1,
              if changed then 1 else run + 1, prevMac - prevMac % 256 + msg[i].mac5)
  {
    hide AreRuns, TrailingRun;
    SplitId(prefix, msg[if i == 0 then 0 else i - 1].mac5);
    if i == 0 {
      NoRuns(msg, prefix);
      LastRun(msg, 0);
    } else if ByteSized(msg) {
      LastRun(msg, i);
      if prevMac % 256 != msg[i].mac5 {
        RunEnds(calls, msg, prefix, i, prevMac);
      }
    }
  }

  lemma LastRun(msg: seq<Event>, i: nat)
    requires i < |msg|
    ensures TrailingRun(msg[..i + 1])
         == if i == 0 || msg[i - 1].mac5 != msg[i].mac5 then 1 else TrailingRun(msg[..i]) + 1
  {
    assert msg[..i + 1][..i] == msg[..i];
  }

  lemma NoRuns(msg: seq<Event>, prefix: nat)
    ensures AreRuns([], msg, prefix, 0)
  {}

  /** When the board number changes at record `i`, the run before it is complete. */
  lemma RunEnds(calls: seq<Call>, msg: seq<Event>, prefix: nat, i: nat, prevMac: int)
    requires 0 < i < |msg|
    requires prevMac == prefix + msg[i - 1].mac5
    requires AreRuns(calls, msg, prefix, i - TrailingRun(msg[..i]))
    requires calls != [] ==> calls[|calls| - 1].id != prevMac
    ensures AreRuns(calls + [Call(prevMac, i - TrailingRun(msg[..i]), TrailingRun(msg[..i]))], msg, prefix, i)
  {
    var run := TrailingRun(msg[..i]);
    forall j | i - run <= j < i ensures prefix + msg[j].mac5 == prevMac {
      assert msg[..i][j].mac5 == msg[..i][i - 1].mac5;
    }
    AddRun(calls, msg, prefix, Call(prevMac, i - run, run));
  }

  /** With a trailer the last run is the trailer alone, so the inserts cover exactly the events. */
  lemma TrailerIsLastRun(msg: seq<Event>, m: nat)
    requires IsMessage(msg, m)
    ensures ByteSized(msg) && |msg| - TrailingRun(msg) == m
  {}

  /** The events that the inserts bring to one board, in order. */
  function Delivered(calls: seq<Call>, msg: seq<Event>, id: int): seq<Event>
  {
    if calls == [] then []
    else
      var c := calls[|calls| - 1];
      Delivered(calls[..|calls| - 1], msg, id)
      + (if c.id == id && c.begin + c.n <= |msg| then msg[c.begin..c.begin + c.n] else [])
  }

  /** The events of one board in the message. */
  function OfBoard(events: seq<Event>, mac5: int): seq<Event> {
    if events == [] then []
    else
      var last := events[|events| - 1];
      OfBoard(events[..|events| - 1], mac5) + (if last.mac5 == mac5 then [last] else [])
  }

  lemma {:induction false} OfBoardRun(events: seq<Event>, run: seq<Event>, mac5: int, runMac: int)
    requires forall e | e in run :: e.mac5 == runMac
    ensures OfBoard(events + run, mac5) == OfBoard(events, mac5) + (if runMac == mac5 then run else [])
  {
    if run == [] {
      assert events + run == events;
    } else {
      var n := |run| - 1;
      assert (events + run)[..|events + run| - 1] == events + run[..n];
      assert run[n] in run;
      OfBoardRun(events, run[..n], mac5, runMac);
      assert run == run[..n] + [run[n]];
    }
  }

  lemma OfBoardUpTo(c: Call, msg: seq<Event>, prefix: nat, mac5: int)
    requires IsBoardRun(c, msg, prefix)
    ensures OfBoard(msg[..c.begin + c.n], mac5)
         == OfBoard(msg[..c.begin], mac5) + (if c.id == prefix + mac5 then msg[c.begin..c.begin + c.n] else [])
  {
    var run := msg[c.begin..c.begin + c.n];
    OfBoardRun(msg[..c.begin], run, mac5, c.id - prefix);
    assert msg[..c.begin + c.n] == msg[..c.begin] + run;
  }

  /** Every board receives exactly its own events of the message, in message order, and never the trailer. */
  lemma {:induction false} DeliveredIsOfBoard(calls: seq<Call>, msg: seq<Event>, prefix: nat, upto: nat, mac5: int)
    requires upto <= |msg| && AreRuns(calls, msg, prefix, upto)
    ensures Delivered(calls, msg, prefix + mac5) == OfBoard(msg[..upto], mac5)
  {
    if calls != [] {
      var before, c := calls[..|calls| - 1], calls[|calls| - 1];
      DeliveredIsOfBoard(before, msg, prefix, c.begin, mac5);
      OfBoardUpTo(c, msg, prefix, mac5);
    }
  }

  /** Without a trailer the board of the last run loses exactly that run. */
  lemma WithoutTrailer(calls: seq<Call>, msg: seq<Event>, prefix: nat, mac5: int)
    requires msg != [] && AreRuns(calls, msg, prefix, |msg| - TrailingRun(msg))
    ensures
      var cut := |msg| - TrailingRun(msg);
      OfBoard(msg, mac5)
        == Delivered(calls, msg, prefix + mac5) + (if msg[|msg| - 1].mac5 == mac5 then msg[cut..] else [])
  {
    var cut := |msg| - TrailingRun(msg);
    DeliveredIsOfBoard(calls, msg, prefix, cut, mac5);
    OfBoardRun(msg[..cut], msg[cut..], mac5, msg[|msg| - 1].mac5);
    assert msg == msg[..cut] + msg[cut..];
    hide AreRuns, Delivered, OfBoard;
  }

  lemma {:induction false} OfBoardAppend(a: seq<Event>, b: seq<Event>, mac5: int)
    ensures OfBoard(a + b, mac5) == OfBoard(a, mac5) + OfBoard(b, mac5)
  {
    if b == [] {
      assert a + b == a;
    } else {
      var n := |b| - 1;
      assert (a + b)[..|a + b| - 1] == a + b[..n];
      OfBoardAppend(a, b[..n], mac5);
      assert (a + b)[|a + b| - 1] == b[n];
    }
  }
}
