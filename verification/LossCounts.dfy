/** What the driver's counters say after packets of records: the losses that the boards announce, board by board. */
module LossCounts {
  import opened Words
  import opened DriverBuffers
  import opened PacketFormat
  import opened PacketDecode
  import opened PollAccounting
  import opened Receiver

  /** Events that the records announce as lost in the board. */
  function LostIn(records: seq<Record>): nat {
    if records == [] then 0 else records[0].lost + LostIn(records[1..])
  }

  /** The count of overwritten events in force after the records: that of the last one. */
  function LastOverwritten(records: seq<Record>, before: Uint32): Uint32 {
    if records == [] then before else records[|records| - 1].overwritten
  }

  predicate Is32Bit(x: int) {
    -0x8000_0000 <= x < 0x8000_0000
  }

  /** The entry of board `source` grows by `n`, in 32 bits, and no other entry changes. */
  ghost predicate GrowsBy(before: seq<int>, after: seq<int>, source: Octet, n: int) {
    && |before| == |after| == 256
    && (forall x | 0 <= x < 256 && x != source :: after[x] == before[x])
    && (Is32Bit(before[source]) ==> Is32Bit(after[source]) && (after[source] - before[source] - n) % 0x1_0000_0000 == 0)
  }

  lemma AddGrows(perBoard: seq<int>, source: Octet, n: int)
    requires |perBoard| == BOARDS
    ensures GrowsBy(perBoard, Add(perBoard, source, n), source, n)
  {
    var q := ToInt32Congruent(perBoard[source] + n);
    Multiple(q);
  }

  lemma Multiple(q: int)
    ensures q * 0x1_0000_0000 % 0x1_0000_0000 == 0
  {}

  lemma GrowsTwice(a: seq<int>, b: seq<int>, c: seq<int>, source: Octet, m: int, n: int)
    requires GrowsBy(a, b, source, m) && GrowsBy(b, c, source, n)
    ensures GrowsBy(a, c, source, m + n)
  {}

  lemma GrowsNot(a: seq<int>, source: Octet)
    requires |a| == BOARDS
    ensures GrowsBy(a, a, source, 0)
  {}

  /** `stored` events of board `source` were stored, and it announced `lost` lost ones; nothing is charged for
      overwritten ones yet. */
  ghost predicate Counts(c: Counters, d: Counters, source: Octet, stored: int, lost: int) {
    && d.totalLost == (c.totalLost + lost) % 0x1_0000_0000
    && d.totalAcquired == (c.totalAcquired + stored) % 0x1_0000_0000
    && GrowsBy(c.lostFpga, d.lostFpga, source, lost) && GrowsBy(c.events, d.events, source, stored)
    && d.lostCpu == c.lostCpu
  }

  lemma CountsNothing(c: Counters, source: Octet)
    requires c.Valid()
    ensures Counts(c, c, source, 0, 0)
  {}

  lemma CountsTwice(c: Counters, d: Counters, e: Counters, source: Octet, stored: int, lost: int, stored': int,
                    lost': int)
    requires Counts(c, d, source, stored, lost) && Counts(d, e, source, stored', lost')
    ensures Counts(c, e, source, stored + stored', lost + lost')
  {
    GrowsTwice(c.lostFpga, d.lostFpga, e.lostFpga, source, lost, lost');
    GrowsTwice(c.events, d.events, e.events, source, stored, stored');
    ToUint32Plus(c.totalLost + lost, lost');
    ToUint32Plus(c.totalAcquired + stored, stored');
    hide GrowsBy;
  }

  /** The first four bytes of a record, as the loop counts them. */
  lemma HeaderCounts(c: Counters, memory: Memory, j: nat, source: Octet)
    requires c.Valid()
    ensures
      var d := Counted(c, memory, j, source);
      && Counts(c, d, source, 0, memory(j + 2) + 256 * memory(j + 3))
      && d.overwritten == memory(j) + 256 * memory(j + 1) && d.overrun == c.overrun
  {
    AddGrows(c.lostFpga, source, Word16(memory, j + 2));
    GrowsNot(c.events, source);
    hide GrowsBy, Add, EventTime, Reference, Word32;
  }

  lemma EventCounts(c: Counters, source: Octet)
    requires c.Valid()
    ensures
      var d := CountEvent(c, source);
      Counts(c, d, source, 1, 0) && d.overwritten == c.overwritten && d.overrun == c.overrun
  {
    AddGrows(c.events, source, 1);
    GrowsNot(c.lostFpga, source);
    hide GrowsBy, Add;
  }

  /** One record for which there is a slot. */
  lemma RecordCounts(memory: Memory, j: nat, r: Record, source: Octet, full: nat, s: State)
    requires s.Valid(full) && Room(s.banks, full) > 0 && r.Fits() && HasBytes(memory, j, RecordBytes(r))
    ensures
      var (next, t) := Step(memory, j, source, full, s);
      && next == j + 76 && Room(t.banks, full) == Room(s.banks, full) - 1
      && Counts(s.counters, t.counters, source, 1, r.lost)
      && t.counters.overwritten == r.overwritten && t.counters.overrun == s.counters.overrun
  {
    hide Room, NextSlot, Counted, CountEvent, HasBytes, RecordBytes, Consistent, Counts, Step, Matches;
    StepStores(memory, j, r, source, full, s);
    ReadHeader(memory, j, r);
    HeaderCounts(s.counters, memory, j, source);
    var counted := Counted(s.counters, memory, j, source);
    EventCounts(counted, source);
    SlotIffRoom(s.banks, full);
    SlotStep(memory, j, source, full, s);
    CountsTwice(s.counters, counted, CountEvent(counted, source), source, 0, r.lost, 1, 0);
  }

  lemma SlotStep(memory: Memory, j: nat, source: Octet, full: nat, s: State)
    requires s.Valid(full) && NextSlot(s.banks).Slot?
    ensures Step(memory, j, source, full, s).1.counters == CountEvent(Counted(s.counters, memory, j, source), source)
  {
    hide Counted, NextSlot, Consistent, Received, CountEvent;
  }

  /** Without a slot the loop goes on after 12 bytes, and takes the bytes there for the next record's counts. */
  function HeadersLost(memory: Memory, j: nat, datalen: int): nat
    decreases datalen - j
  {
    if j >= datalen then 0 else memory(j + 2) + 256 * memory(j + 3) + HeadersLost(memory, j + 12, datalen)
  }

  lemma {:induction false} OverrunCounts(memory: Memory, j: nat, datalen: int, source: Octet, full: nat, s: State)
    requires s.Valid(full) && Room(s.banks, full) == 0
    ensures
      var t := Process(memory, j, datalen, source, full, s);
      && Counts(s.counters, t.counters, source, 0, HeadersLost(memory, j, datalen))
      && (t.counters.overrun <==> s.counters.overrun || j < datalen)
    decreases datalen - j
  {
    hide Counts, Room, Counted, NextSlot, Consistent;
    if j >= datalen {
      CountsNothing(s.counters, source);
    } else {
      SlotIffRoom(s.banks, full);
      HeaderCounts(s.counters, memory, j, source);
      OverrunStep(memory, j, source, full, s);
      CountsOverrun(s.counters, Counted(s.counters, memory, j, source), source, 0, memory(j + 2) + 256 * memory(j + 3));
      var (next, t) := Step(memory, j, source, full, s);
      hide Step;
      OverrunCounts(memory, next, datalen, source, full, t);
      var u := Process(memory, next, datalen, source, full, t);
      CountsTwice(s.counters, t.counters, u.counters, source, 0, memory(j + 2) + 256 * memory(j + 3),
                  0, HeadersLost(memory, next, datalen));
    }
  }

  lemma OverrunStep(memory: Memory, j: nat, source: Octet, full: nat, s: State)
    requires s.Valid(full) && NextSlot(s.banks).NoSlot?
    ensures
      var (next, t) := Step(memory, j, source, full, s);
      var c := Counted(s.counters, memory, j, source);
      next == j + 12 && t == State(s.banks, c.(overrun := true), s.accepted)
  {
    hide Counted, NextSlot, Consistent;
  }

  lemma CountsOverrun(c: Counters, d: Counters, source: Octet, stored: int, lost: int)
    requires Counts(c, d, source, stored, lost)
    ensures Counts(c, d.(overrun := true), source, stored, lost)
  {
    hide GrowsBy;
  }

  /** From a packet of encoded records the driver stores as many as there is room for and counts them and their losses
      for the board that sent them, and for no other. */
  lemma {:induction false} PacketCounts(memory: Memory, j: nat, records: seq<Record>, source: Octet, full: nat,
                                        s: State)
    requires s.Valid(full) && HasRecords(memory, j, records)
    ensures
      var n, datalen := Min(|records|, Room(s.banks, full)), j + 76 * |records|;
      var t := Process(memory, j, datalen, source, full, s);
      && 0 <= n <= |records|
      && Counts(s.counters, t.counters, source, n, LostIn(records[..n]) + HeadersLost(memory, j + 76 * n, datalen))
      && (n == |records| ==>
            && t.counters.overwritten == LastOverwritten(records, s.counters.overwritten)
            && t.counters.overrun == s.counters.overrun
            && Room(t.banks, full) == Room(s.banks, full) - n)
      && (n < |records| ==> t.counters.overrun)
    decreases |records|
  {
    hide Room, NextSlot, HasBytes, Step, Consistent, Counts, RecordBytes;
    SlotIffRoom(s.banks, full);
    var datalen := j + 76 * |records|;
    if records == [] {
      CountsNothing(s.counters, source);
    } else if Room(s.banks, full) == 0 {
      assert records[..0] == [];
      OverrunCounts(memory, j, datalen, source, full, s);
    } else {
      RecordCounts(memory, j, records[0], source, full, s);
      var (next, t) := Step(memory, j, source, full, s);
      var u := Process(memory, next, datalen, source, full, t);
      assert next + 76 * |records[1..]| == datalen;
      PacketCounts(memory, next, records[1..], source, full, t);
      var n := Min(|records| - 1, Room(t.banks, full));
      assert records[..n + 1][1..] == records[1..][..n];
      CountsTwice(s.counters, t.counters, u.counters, source, 1, records[0].lost,
                  n, LostIn(records[1..][..n]) + HeadersLost(memory, next + 76 * n, datalen));
    }
  }

  /** All records of a board's packets. */
  function AllRecords(packets: seq<seq<Record>>): seq<Record> {
    if packets == [] then [] else packets[0] + AllRecords(packets[1..])
  }

  /** A board sends packets of encoded records, each behind 18 bytes of header, and then the end marker. */
  ghost predicate Sends(replies: seq<Reply>, source: Octet, packets: seq<seq<Record>>)
    decreases |packets|
  {
    && replies != [] && replies[0].source == source
    && if packets == [] then replies[0].numbytes > 0 && replies[0].cmd == 0x0303
       else
         && replies[0].numbytes == 18 + 76 * |packets[0]| && replies[0].cmd == 0x0300
         && HasRecords(replies[0].data, 0, packets[0]) && Sends(replies[1..], source, packets[1..])
  }

  lemma {:induction false} LostInAppend(a: seq<Record>, b: seq<Record>)
    ensures LostIn(a + b) == LostIn(a) + LostIn(b)
  {
    if a == [] {
      assert a + b == b;
    } else {
      assert (a + b)[1..] == a[1..] + b;
      LostInAppend(a[1..], b);
    }
  }

  /** A board's records are counted, and the last count of overwritten events is charged to it; when it sent no records,
      that of the board before it. */
  ghost predicate Charges(c: Counters, d: Counters, source: Octet, records: seq<Record>) {
    var w := LastOverwritten(records, c.overwritten);
    && d.totalLost == (c.totalLost + LostIn(records) + w) % 0x1_0000_0000
    && d.totalAcquired == (c.totalAcquired + |records|) % 0x1_0000_0000
    && GrowsBy(c.lostFpga, d.lostFpga, source, LostIn(records)) && GrowsBy(c.lostCpu, d.lostCpu, source, w)
    && GrowsBy(c.events, d.events, source, |records|)
    && d.overwritten == w
  }

  lemma EndCharges(c: Counters, source: Octet)
    requires c.Valid()
    ensures Charges(c, ChargeOverwritten(c, source), source, [])
  {
    AddGrows(c.lostCpu, source, c.overwritten);
    GrowsNot(c.lostFpga, source);
    GrowsNot(c.events, source);
    hide GrowsBy, Add;
  }

  lemma CountsThenCharges(c: Counters, d: Counters, e: Counters, source: Octet, front: seq<Record>, rest: seq<Record>)
    requires Counts(c, d, source, |front|, LostIn(front)) && d.overwritten == LastOverwritten(front, c.overwritten)
    requires Charges(d, e, source, rest)
    ensures Charges(c, e, source, front + rest)
  {
    hide GrowsBy, LostIn, LastOverwritten;
    LostInAppend(front, rest);
    LastOfAppend(front, rest, c.overwritten);
    GrowsTwice(c.lostFpga, d.lostFpga, e.lostFpga, source, LostIn(front), LostIn(rest));
    GrowsTwice(c.events, d.events, e.events, source, |front|, |rest|);
    ToUint32Plus(c.totalLost + LostIn(front), LostIn(rest) + LastOverwritten(rest, d.overwritten));
    ToUint32Plus(c.totalAcquired + |front|, |rest|);
  }

  lemma LastOfAppend(front: seq<Record>, rest: seq<Record>, before: Uint32)
    ensures LastOverwritten(front + rest, before) == LastOverwritten(rest, LastOverwritten(front, before))
  {}

  /** One board, when there is room for all that it sends. */
  lemma {:induction false} BoardCharges(replies: seq<Reply>, packets: seq<seq<Record>>, source: Octet, before: Octet,
                                        full: nat, s: State)
    requires s.Valid(full) && Sends(replies, source, packets) && Room(s.banks, full) >= |AllRecords(packets)|
    ensures
      var (steps, last) := BoardSteps(replies, before);
      var t := Poll(steps, full, s);
      && last == source && Charges(s.counters, t.counters, source, AllRecords(packets))
      && Room(t.banks, full) == Room(s.banks, full) - |AllRecords(packets)|
    decreases |packets|
  {
    hide Charges, Counts, Room, Consistent, Process, HasRecords, ChargeOverwritten, LostIn;
    if packets == [] {
      EndCharges(s.counters, source);
      assert Poll([EndOfBoard(source)], full, s) == s.(counters := ChargeOverwritten(s.counters, source));
    } else {
      var p, records := replies[0], packets[0];
      PacketCounts(p.data, 0, records, source, full, s);
      WholePacket(p.data, records);
      var t := Process(p.data, 0, p.numbytes - 18, source, full, s);
      BoardCharges(replies[1..], packets[1..], source, source, full, t);
      var rest := BoardSteps(replies[1..], source).0;
      assert ([Data(p.data, p.numbytes - 18, source)] + rest)[1..] == rest;
      CountsThenCharges(s.counters, t.counters, Poll(rest, full, t).counters, source, records,
                        AllRecords(packets[1..]));
    }
  }

  lemma WholePacket(memory: Memory, records: seq<Record>)
    ensures records[..|records|] == records && HeadersLost(memory, 76 * |records|, 76 * |records|) == 0
  {}

  /** What one board sends during a poll. */
  datatype Sent = Sent(source: Octet, packets: seq<seq<Record>>)

  function RecordsOf(sent: seq<Sent>): nat {
    if sent == [] then 0 else |AllRecords(sent[0].packets)| + RecordsOf(sent[1..])
  }

  function StoredAt(sent: seq<Sent>, x: int): nat {
    if sent == [] then 0
    else (if sent[0].source == x then |AllRecords(sent[0].packets)| else 0) + StoredAt(sent[1..], x)
  }

  /** Events that the boards with number `x` announce as lost. */
  function LostAt(sent: seq<Sent>, x: int): nat {
    if sent == [] then 0
    else (if sent[0].source == x then LostIn(AllRecords(sent[0].packets)) else 0) + LostAt(sent[1..], x)
  }

  function LostAnywhere(sent: seq<Sent>): nat {
    if sent == [] then 0 else LostIn(AllRecords(sent[0].packets)) + LostAnywhere(sent[1..])
  }

  /** Overwritten events charged to the boards with number `x`, when the count in force before is `w`. */
  function OverwrittenAt(sent: seq<Sent>, x: int, w: Uint32): nat {
    if sent == [] then 0
    else
      var v := LastOverwritten(AllRecords(sent[0].packets), w);
      (if sent[0].source == x then v else 0) + OverwrittenAt(sent[1..], x, v)
  }

  function OverwrittenAnywhere(sent: seq<Sent>, w: Uint32): nat {
    if sent == [] then 0
    else
      var v := LastOverwritten(AllRecords(sent[0].packets), w);
      v + OverwrittenAnywhere(sent[1..], v)
  }

  ghost predicate Grows(before: int, after: int, n: int) {
    Is32Bit(before) ==> Is32Bit(after) && (after - before - n) % 0x1_0000_0000 == 0
  }

  ghost predicate PollCharges(c: Counters, d: Counters, sent: seq<Sent>)
    requires c.Valid() && d.Valid()
  {
    && d.totalLost == (c.totalLost + LostAnywhere(sent) + OverwrittenAnywhere(sent, c.overwritten)) % 0x1_0000_0000
    && d.totalAcquired == (c.totalAcquired + RecordsOf(sent)) % 0x1_0000_0000
    && forall x | 0 <= x < 256 ::
         && Grows(c.lostFpga[x], d.lostFpga[x], LostAt(sent, x))
         && Grows(c.lostCpu[x], d.lostCpu[x], OverwrittenAt(sent, x, c.overwritten))
         && Grows(c.events[x], d.events[x], StoredAt(sent, x))
  }

  ghost predicate AllSend(boards: seq<seq<Reply>>, sent: seq<Sent>) {
    |boards| == |sent| && forall i | 0 <= i < |boards| :: Sends(boards[i], sent[i].source, sent[i].packets)
  }

  lemma ChargesThenPoll(c: Counters, d: Counters, e: Counters, sent: seq<Sent>)
    requires sent != [] && c.Valid() && d.Valid() && e.Valid()
    requires Charges(c, d, sent[0].source, AllRecords(sent[0].packets)) && PollCharges(d, e, sent[1..])
    ensures PollCharges(c, e, sent)
  {
    hide LostIn, AllRecords, LastOverwritten, GrowsBy, Grows;
    var records, source := AllRecords(sent[0].packets), sent[0].source;
    var w := LastOverwritten(records, c.overwritten);
    ToUint32Plus(c.totalLost + LostIn(records) + w, LostAnywhere(sent[1..]) + OverwrittenAnywhere(sent[1..], w));
    ToUint32Plus(c.totalAcquired + |records|, RecordsOf(sent[1..]));
    forall x | 0 <= x < 256
      ensures Grows(c.lostFpga[x], e.lostFpga[x], LostAt(sent, x))
      ensures Grows(c.lostCpu[x], e.lostCpu[x], OverwrittenAt(sent, x, c.overwritten))
      ensures Grows(c.events[x], e.events[x], StoredAt(sent, x))
    {
      GrowsThen(c.lostFpga, d.lostFpga, e.lostFpga, source, LostIn(records), x, LostAt(sent[1..], x));
      GrowsThen(c.lostCpu, d.lostCpu, e.lostCpu, source, w, x, OverwrittenAt(sent[1..], x, w));
      GrowsThen(c.events, d.events, e.events, source, |records|, x, StoredAt(sent[1..], x));
    }
  }

  lemma GrowsThen(a: seq<int>, b: seq<int>, c: seq<int>, source: Octet, n: int, x: nat, m: int)
    requires GrowsBy(a, b, source, n) && |c| == 256 && x < 256 && Grows(b[x], c[x], m)
    ensures Grows(a[x], c[x], (if source == x then n else 0) + m)
  {}

  /** A whole poll, when there is room: every board is charged with the losses that its own records announce, and
      with the count of overwritten events in force when it ends. */
  lemma {:induction false} PollIsCharged(boards: seq<seq<Reply>>, sent: seq<Sent>, before: Octet, full: nat, s: State)
    requires s.Valid(full) && AllSend(boards, sent) && Room(s.banks, full) >= RecordsOf(sent)
    ensures PollCharges(s.counters, Poll(PollSteps(boards, before), full, s).counters, sent)
    decreases |boards|
  {
    hide Charges, Room, Consistent, BoardSteps, LostIn, AllRecords, LastOverwritten, Sends;
    if boards != [] {
      BoardCharges(boards[0], sent[0].packets, sent[0].source, before, full, s);
      var (steps, last) := BoardSteps(boards[0], before);
      var t := Poll(steps, full, s);
      PollIsCharged(boards[1..], sent[1..], last, full, t);
      PollAppend(steps, PollSteps(boards[1..], last), full, s);
      ChargesThenPoll(s.counters, t.counters, Poll(PollSteps(boards[1..], last), full, t).counters, sent);
    }
  }

  /** So the accounts of a poll are the boards' own announcements, whatever earlier polls left. */
  lemma PollReports(boards: seq<seq<Reply>>, sent: seq<Sent>, before: Octet, full: nat, s: State)
    requires s.Valid(full) && AllSend(boards, sent) && Room(s.banks, full) >= RecordsOf(sent)
    ensures
      var c := Poll(PollSteps(boards, before), full, s.(counters := Setup(s.counters))).counters;
      && c.totalLost
         == (s.counters.totalLost + LostAnywhere(sent) + OverwrittenAnywhere(sent, 0)) % 0x1_0000_0000
      && c.totalAcquired == (s.counters.totalAcquired + RecordsOf(sent)) % 0x1_0000_0000
      && forall x | 0 <= x < 256 ::
           && (LostAt(sent, x) < 0x8000_0000 ==> c.lostFpga[x] == LostAt(sent, x))
           && (OverwrittenAt(sent, x, 0) < 0x8000_0000 ==> c.lostCpu[x] == OverwrittenAt(sent, x, 0))
           && (StoredAt(sent, x) < 0x8000_0000 ==> c.events[x] == StoredAt(sent, x))
  {
    hide Room, Consistent, PollSteps, Poll, AllSend, LostAt, OverwrittenAt, StoredAt, Grows;
    var t := s.(counters := Setup(s.counters));
    PollIsCharged(boards, sent, before, full, t);
    var c := Poll(PollSteps(boards, before), full, t).counters;
    forall x | 0 <= x < 256
      ensures LostAt(sent, x) < 0x8000_0000 ==> c.lostFpga[x] == LostAt(sent, x)
      ensures OverwrittenAt(sent, x, 0) < 0x8000_0000 ==> c.lostCpu[x] == OverwrittenAt(sent, x, 0)
      ensures StoredAt(sent, x) < 0x8000_0000 ==> c.events[x] == StoredAt(sent, x)
    {
      FromZero(c.lostFpga[x], LostAt(sent, x));
      FromZero(c.lostCpu[x], OverwrittenAt(sent, x, 0));
      FromZero(c.events[x], StoredAt(sent, x));
    }
  }

  lemma FromZero(x: int, n: nat)
    requires Grows(0, x, n)
    ensures n < 0x8000_0000 ==> x == n
  {}

  /** A board that does not answer makes the board before it pay its last count once more. */
  lemma SilentBoard(replies: seq<Reply>, before: Octet, full: nat, s: State)
    requires s.Valid(full) && (replies == [] || replies[0].numbytes <= 0)
    ensures
      var (steps, last) := BoardSteps(replies, before);
      var t := Poll(steps, full, s);
      last == before && t.banks == s.banks && Charges(s.counters, t.counters, before, [])
  {
    EndCharges(s.counters, before);
    hide Charges, ChargeOverwritten;
    assert Poll([EndOfBoard(before)], full, s) == s.(counters := ChargeOverwritten(s.counters, before));
  }

  /** The timestamp of one of the two clocks. */
  function StampOf(r: Record, clock: nat): Stamp {
    if clock == 0 then r.stamp0 else r.stamp1
  }

  /** The memories of the boards' last reference times, after these records of one board. */
  function Remembered(refs: seq<int>, records: seq<Record>, clock: nat, source: Octet): seq<int>
    requires |refs| == 256
    decreases |records|
  {
    if records == [] then refs
    else
      var stamp := StampOf(records[0], clock);
      Remembered(if stamp.reference then refs[source := stamp.time + 5] else refs, records[1..], clock, source)
  }

  lemma RecordRemembered(memory: Memory, j: nat, r: Record, source: Octet, full: nat, s: State)
    requires s.Valid(full) && Room(s.banks, full) > 0 && r.Fits() && HasBytes(memory, j, RecordBytes(r))
    ensures
      var c, d := s.counters, Step(memory, j, source, full, s).1.counters;
      && d.lastRef0 == (if r.stamp0.reference then c.lastRef0[source := r.stamp0.time + 5] else c.lastRef0)
      && d.lastRef1 == (if r.stamp1.reference then c.lastRef1[source := r.stamp1.time + 5] else c.lastRef1)
  {
    hide HasBytes, RecordBytes, Consistent, Step, Stamp.Raw, EventTime, Reference, Overflow, Word32, Word16, Add, Room;
    ReadHeader(memory, j, r);
    ReadStamp(r.stamp0);
    ReadStamp(r.stamp1);
    SlotIffRoom(s.banks, full);
    SlotStep(memory, j, source, full, s);
  }

  /** When there is room for all records of a packet, the last reference of each clock is remembered, for the board that
      sent it. */
  lemma {:induction false} PacketRemembered(memory: Memory, j: nat, records: seq<Record>, source: Octet, full: nat,
                                            s: State)
    requires s.Valid(full) && HasRecords(memory, j, records) && Room(s.banks, full) >= |records|
    ensures
      var c, d := s.counters, Process(memory, j, j + 76 * |records|, source, full, s).counters;
      && d.lastRef0 == Remembered(c.lastRef0, records, 0, source)
      && d.lastRef1 == Remembered(c.lastRef1, records, 1, source)
    decreases |records|
  {
    hide Room, NextSlot, HasBytes, Step, Consistent, Counts, RecordBytes;
    if records != [] {
      RecordCounts(memory, j, records[0], source, full, s);
      RecordRemembered(memory, j, records[0], source, full, s);
      var (next, t) := Step(memory, j, source, full, s);
      PacketRemembered(memory, next, records[1..], source, full, t);
      assert next + 76 * |records[1..]| == j + 76 * |records|;
    }
  }
}
