/** Decoding of data packets into event slots, with the loss accounting of a poll. */
module PacketDecode {
  import opened Words
  import opened Events
  import opened DriverBuffers
  import opened PacketFormat

  const BOARDS: nat := 256

  /** The driver's counters: totals, and per board since the poll began. */
  datatype Counters = Counters(totalLost: Uint32, totalAcquired: Uint32,
                               lostCpu: seq<int>, lostFpga: seq<int>, events: seq<int>,
                               overwritten: Uint32, lostInFpga: Uint32, overrun: bool,
                               lastRef0: seq<Uint32>, lastRef1: seq<Uint32>)
  {
    ghost predicate Valid() {
      |lostCpu| == |lostFpga| == |events| == |lastRef0| == |lastRef1| == BOARDS
    }
  }

  /** `perBoard[board] += n`, in 32 bits. */
  function Add(perBoard: seq<int>, board: Octet, n: int): (r: seq<int>)
    requires |perBoard| == BOARDS
    ensures |r| == BOARDS
  {
    perBoard[board := ToInt32(perBoard[board] + n)]
  }

  /** The two loss counts at the start of a record. */
  function CountLoss(c: Counters, memory: Memory, j: nat, source: Octet): (r: Counters)
    requires c.Valid()
    ensures r.Valid()
  {
    var lost := Word16(memory, j + 2);
    c.(overwritten := Word16(memory, j), lostInFpga := lost, totalLost := ToUint32(c.totalLost + lost),
       lostFpga := Add(c.lostFpga, source, lost))
  }

  /** Remembers the times of reference events, per board. */
  function KeepReferences(c: Counters, memory: Memory, j: nat, source: Octet): (r: Counters)
    requires c.Valid()
    ensures r.Valid()
  {
    var word0, word1 := Word32(memory, j + 4), Word32(memory, j + 8);
    c.(lastRef0 := if Reference(word0) then c.lastRef0[source := EventTime(word0)] else c.lastRef0,
       lastRef1 := if Reference(word1) then c.lastRef1[source := EventTime(word1)] else c.lastRef1)
  }

  /** What a record changes before a slot is asked for. */
  function Counted(c: Counters, memory: Memory, j: nat, source: Octet): (r: Counters)
    requires c.Valid()
    ensures r.Valid()
  {
    KeepReferences(CountLoss(c, memory, j, source), memory, j, source)
  }

  function CountEvent(c: Counters, source: Octet): (r: Counters)
    requires c.Valid()
    ensures r.Valid()
  {
    c.(totalAcquired := ToUint32(c.totalAcquired + 1), events := Add(c.events, source, 1))
  }

  /** The driver between two records; `accepted` lists the events stored so far. */
  datatype State = State(banks: seq<Bank>, counters: Counters, accepted: seq<Event>)
  {
    ghost predicate Valid(full: nat) {
      Consistent(banks, full) && counters.Valid() && 1 < full < TWO_TO_31
    }
  }

  /** The event stored for the record at `j`. */
  function Received(memory: Memory, j: nat, source: Octet, full: nat, banks: seq<Bank>): Event
    requires Consistent(banks, full) && full > 1 && NextSlot(banks).Slot?
  {
    SlotInRange(banks, full);
    Decoded(memory, j, source, banks[NextSlot(banks).bank].slots[NextSlot(banks).index])
  }

  function Stored(s: State, full: nat, event: Event, source: Octet): (r: State)
    requires s.Valid(full)
    ensures r.Valid(full)
  {
    AcceptKeepsConsistent(s.banks, full, event);
    State(Accept(s.banks, full, event), CountEvent(s.counters, source), s.accepted + [event])
  }

  /** One record: without a slot only its 12 header bytes are consumed. */
  function Step(memory: Memory, j: nat, source: Octet, full: nat, s: State): (r: (nat, State))
    requires s.Valid(full)
    ensures r.1.Valid(full) && r.0 > j
  {
    var c := Counted(s.counters, memory, j, source);
    if NextSlot(s.banks).NoSlot? then (j + HEADER, s.(counters := c.(overrun := true)))
    else (j + RECORD, Stored(s.(counters := c), full, Received(memory, j, source, full, s.banks), source))
  }

  function Process(memory: Memory, j: nat, datalen: int, source: Octet, full: nat, s: State): (r: State)
    requires s.Valid(full)
    ensures r.Valid(full)
    decreases datalen - j
  {
    if j >= datalen then s
    else
      var (next, t) := Step(memory, j, source, full, s);
      Process(memory, next, datalen, source, full, t)
  }

  /** Number of events the buffers can still take. */
  function Room(banks: seq<Bank>, full: nat): int {
    if banks == [] then 0
    else
      var last := banks[|banks| - 1];
      Room(banks[..|banks| - 1], full)
      + (if last.stat == EMPTY then full else if last.stat == FILLING then full - last.num else 0)
  }

  lemma {:induction false} RoomOfUpdate(banks: seq<Bank>, full: nat, b: nat, bank: Bank)
    requires b < |banks|
    ensures Room(banks[b := bank], full) - Room([bank], full) == Room(banks, full) - Room([banks[b]], full)
  {
    var n := |banks| - 1;
    assert Room([bank], full) == Room([], full) + Room([bank], full);
    if b == n {
      assert banks[b := bank][..n] == banks[..n];
    } else {
      RoomOfUpdate(banks[..n], full, b, bank);
      assert banks[b := bank][..n] == banks[..n][b := bank];
    }
  }

  lemma {:induction false} RoomIffUsable(banks: seq<Bank>, full: nat)
    requires full > 1 && forall i | 0 <= i < |banks| :: banks[i].Fits(full)
    ensures Room(banks, full) >= 0
    ensures Room(banks, full) > 0
        <==> exists i :: 0 <= i < |banks| && (banks[i].stat == EMPTY || banks[i].stat == FILLING)
  {
    if banks != [] {
      var n := |banks| - 1;
      RoomIffUsable(banks[..n], full);
      assert banks[n].Fits(full);
    }
  }

  /** A slot is handed out exactly when there is room. */
  lemma SlotIffRoom(banks: seq<Bank>, full: nat)
    requires Consistent(banks, full) && full > 1
    ensures NextSlot(banks).Slot? <==> Room(banks, full) > 0
    ensures Room(banks, full) >= 0
  {
    RoomIffUsable(banks, full);
    hide Room;
  }

  lemma AcceptUsesRoom(banks: seq<Bank>, full: nat, event: Event)
    requires Consistent(banks, full) && full > 1 && NextSlot(banks).Slot?
    ensures Room(Accept(banks, full, event), full) == Room(banks, full) - 1
  {
    var next, b := Accept(banks, full, event), NextSlot(banks).bank;
    SlotInRange(banks, full);
    assert next == banks[b := next[b]];
    RoomOfUpdate(banks, full, b, next[b]);
    assert banks[b].Fits(full);
  }

  /** The memory holds these records, one after the other. */
  ghost predicate HasRecords(memory: Memory, j: nat, records: seq<Record>)
    decreases |records|
  {
    records == [] || (records[0].Fits() && HasBytes(memory, j, RecordBytes(records[0]))
                      && HasRecords(memory, j + RECORD, records[1..]))
  }

  function Min(x: int, y: int): int {
    if x <= y then x else y
  }

  /** From `s` to `t` the driver stored events for the first `n` records. */
  ghost predicate Gained(s: State, t: State, n: int, records: seq<Record>, source: Octet) {
    && 0 <= n <= |records|
    && |t.accepted| == |s.accepted| + n && t.accepted[..|s.accepted|] == s.accepted
    && (forall k | 0 <= k < n :: Matches(t.accepted[|s.accepted| + k], records[k], source))
  }

  lemma GainedNothing(s: State, t: State, records: seq<Record>, source: Octet)
    requires t.accepted == s.accepted
    ensures Gained(s, t, 0, records, source)
  {}

  lemma GainedOneMore(s: State, t: State, u: State, n: int, records: seq<Record>, source: Octet)
    requires records != [] && |t.accepted| == |s.accepted| + 1 && t.accepted[..|s.accepted|] == s.accepted
    requires Matches(t.accepted[|s.accepted|], records[0], source)
    requires Gained(t, u, n, records[1..], source)
    ensures Gained(s, u, n + 1, records, source)
  {
    hide Matches;
    var m := |s.accepted|;
    assert u.accepted[..m] == t.accepted[..m];
    forall k | 0 <= k < n + 1 ensures Matches(u.accepted[m + k], records[k], source) {
      if k == 0 {
        assert u.accepted[..m + 1][m] == t.accepted[m];
      } else {
        assert Matches(u.accepted[m + 1 + (k - 1)], records[1..][k - 1], source);
      }
    }
  }

  /** Without room nothing is stored, however the bytes are read. */
  lemma {:induction false} FullProcess(memory: Memory, j: nat, datalen: int, source: Octet, full: nat, s: State)
    requires s.Valid(full) && Room(s.banks, full) == 0
    ensures
      var t := Process(memory, j, datalen, source, full, s);
      t.accepted == s.accepted && t.banks == s.banks && (t.counters.overrun <==> s.counters.overrun || j < datalen)
    decreases datalen - j
  {
    if j < datalen {
      SlotIffRoom(s.banks, full);
      var (next, t) := Step(memory, j, source, full, s);
      FullProcess(memory, next, datalen, source, full, t);
      hide Room, NextSlot, Counted;
    }
  }

  lemma StepStores(memory: Memory, j: nat, r: Record, source: Octet, full: nat, s: State)
    requires s.Valid(full) && Room(s.banks, full) > 0 && r.Fits() && HasBytes(memory, j, RecordBytes(r))
    ensures
      var (next, t) := Step(memory, j, source, full, s);
      && next == j + RECORD && Room(t.banks, full) == Room(s.banks, full) - 1
      && |t.accepted| == |s.accepted| + 1 && t.accepted[..|s.accepted|] == s.accepted
      && Matches(t.accepted[|s.accepted|], r, source)
  {
    SlotIffRoom(s.banks, full);
    SlotInRange(s.banks, full);
    var event := Received(memory, j, source, full, s.banks);
    AcceptUsesRoom(s.banks, full, event);
    RecordRoundTrip(memory, j, r, source, s.banks[NextSlot(s.banks).bank].slots[NextSlot(s.banks).index]);
    hide Room, NextSlot, Counted, CountEvent, Matches, Accept, Decoded, HasBytes, RecordBytes, Consistent;
  }

  /** From a packet of encoded records the driver stores, in order, exactly as many as there is room for. */
  lemma {:induction false} PacketRoundTrip(memory: Memory, j: nat, records: seq<Record>, source: Octet, full: nat,
                                           s: State)
    requires s.Valid(full) && HasRecords(memory, j, records)
    ensures Gained(s, Process(memory, j, j + RECORD * |records|, source, full, s),
                   Min(|records|, Room(s.banks, full)), records, source)
    decreases |records|
  {
    hide Room, NextSlot, Matches, HasBytes, Step, Consistent, Gained;
    SlotIffRoom(s.banks, full);
    var datalen := j + RECORD * |records|;
    if records == [] {
      GainedNothing(s, s, records, source);
    } else if Room(s.banks, full) == 0 {
      FullProcess(memory, j, datalen, source, full, s);
      GainedNothing(s, Process(memory, j, datalen, source, full, s), records, source);
    } else {
      StepStores(memory, j, records[0], source, full, s);
      var (next, t) := Step(memory, j, source, full, s);
      var u := Process(memory, next, datalen, source, full, t);
      assert next + RECORD * |records[1..]| == datalen;
      PacketRoundTrip(memory, next, records[1..], source, full, t);
      GainedOneMore(s, t, u, Min(|records| - 1, Room(t.banks, full)), records, source);
    }
  }
}
