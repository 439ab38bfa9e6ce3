/** From the addresses of boards to the inserts of a message. */
module BoardIds {
  import opened Words
  import opened Events
  import opened MacAddress
  import Demux

  /** The address of the board with number `mac5` that shares all other bytes with `first`. */
  function Sibling(first: seq<Octet>, mac5: Octet): (mac: seq<Octet>)
    requires |first| == 6
    ensures |mac| == 6 && mac[..5] == first[..5] && mac[5] == mac5
  {
    first[..5] + [mac5]
  }

  /** Every insert goes to the board whose number its records carry. */
  ghost predicate GoToSiblings(calls: seq<Demux.Call>, msg: seq<Event>, first: seq<Octet>)
    requires |first| == 6
  {
    forall i, j | 0 <= i < |calls| && calls[i].begin <= j < calls[i].begin + calls[i].n ::
      && j < |msg| && msg[j].mac5 < 256 && calls[i].n > 0
      && calls[i].id == Value(Sibling(first, msg[j].mac5))
  }

  lemma SiblingId(first: seq<Octet>, mac5: Octet)
    requires |first| == 6
    ensures Demux.Prefix(Value(first)) + mac5 == Value(Sibling(first, mac5))
  {
    ComputedIdIff(first, Sibling(first, mac5));
  }

  lemma {:induction false} RunsGoToSiblings(calls: seq<Demux.Call>, msg: seq<Event>, first: seq<Octet>, upto: nat)
    requires |first| == 6 && upto <= |msg| && Demux.AreRuns(calls, msg, Demux.Prefix(Value(first)), upto)
    requires forall i | 0 <= i < upto :: msg[i].mac5 < 256
    ensures GoToSiblings(calls, msg, first)
    ensures forall i | 0 <= i < |calls| :: calls[i].n > 0 && calls[i].begin + calls[i].n <= upto
  {
    hide Value, Demux.Prefix;
    if calls != [] {
      var n := |calls| - 1;
      RunsGoToSiblings(calls[..n], msg, first, calls[n].begin);
      forall i | 0 <= i < n ensures calls[..n][i] == calls[i] {}
      forall j | calls[n].begin <= j < upto ensures calls[n].id == Value(Sibling(first, msg[j].mac5)) {
        SiblingId(first, msg[j].mac5);
      }
    }
  }

  /** No insert goes to a board that has another address than those. */
  lemma {:induction false} NothingForOthers(calls: seq<Demux.Call>, msg: seq<Event>, first: seq<Octet>, mac: seq<Octet>)
    requires |first| == |mac| == 6 && mac[..5] != first[..5] && GoToSiblings(calls, msg, first)
    requires forall i | 0 <= i < |calls| :: calls[i].n > 0 && calls[i].begin + calls[i].n <= |msg|
    ensures Demux.Delivered(calls, msg, Value(mac)) == []
  {
    if calls != [] {
      var n := |calls| - 1;
      NothingForOthers(calls[..n], msg, first, mac);
      var mine := Sibling(first, msg[calls[n].begin].mac5);
      ValueInjective(mine, mac);
      assert mine[..5] == first[..5];
    }
  }

  /** The events of a message that reach the board with address `mac`, when `first` is the first one configured. */
  ghost predicate ReachesBoards(calls: seq<Demux.Call>, msg: seq<Event>, first: seq<Octet>)
    requires |first| == 6 && msg != []
  {
    forall mac: seq<Octet> | |mac| == 6 ::
      Demux.Delivered(calls, msg, Value(mac))
        == if mac[..5] == first[..5] then Demux.OfBoard(msg[..|msg| - 1], mac[5]) else []
  }

  lemma RunsReachBoards(calls: seq<Demux.Call>, msg: seq<Event>, first: seq<Octet>)
    requires |first| == 6 && msg != [] && Demux.IsMessage(msg, |msg| - 1)
    requires Demux.ByteSized(msg)
      ==> Demux.AreRuns(calls, msg, Demux.Prefix(Value(first)), |msg| - Demux.TrailingRun(msg))
    ensures GoToSiblings(calls, msg, first) && ReachesBoards(calls, msg, first)
  {
    hide Value, Demux.Prefix, Demux.AreRuns, Demux.Delivered, Demux.OfBoard, GoToSiblings;
    Demux.TrailerIsLastRun(msg, |msg| - 1);
    RunsGoToSiblings(calls, msg, first, |msg| - 1);
    forall mac: seq<Octet> | |mac| == 6
      ensures Demux.Delivered(calls, msg, Value(mac))
           == if mac[..5] == first[..5] then Demux.OfBoard(msg[..|msg| - 1], mac[5]) else []
    {
      if mac[..5] == first[..5] {
        assert mac == Sibling(first, mac[5]);
        SiblingId(first, mac[5]);
        Demux.DeliveredIsOfBoard(calls, msg, Demux.Prefix(Value(first)), |msg| - 1, mac[5]);
      } else {
        NothingForOthers(calls, msg, first, mac);
      }
    }
  }

  /** The demultiplexing loop with the id of the first configured board: a board receives exactly its own events if it
      agrees with the first one in all bytes but the last, and nothing otherwise. */
  method GetDataFor(zmq: array<Event>, total: nat, first: seq<Octet>) returns (calls: seq<Demux.Call>)
    requires |first| == 6 && 0 < total <= zmq.Length && Demux.IsMessage(zmq[..total], total - 1)
    ensures GoToSiblings(calls, zmq[..total], first) && ReachesBoards(calls, zmq[..total], first)
  {
    calls := Demux.GetData(zmq, total, Value(first));
    RunsReachBoards(calls, zmq[..total], first);
  }
}
