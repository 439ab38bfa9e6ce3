/** The board reader's loop: it gathers a board's packets in a buffer of its own while the driver decodes them too. */
module PacketCollect {
  import opened Words
  import opened PacketFormat
  import opened PacketDecode
  import opened PollAccounting
  import opened Receiver

  /** How one read of a board ends; the original throws for the last three. */
  datatype Outcome = Done(dataSize: nat) | TimedOut | BadCommand | BadSize | TooMany

  /** What is gathered, and what the driver was made to do meanwhile. */
  datatype Gathered = Gathered(outcome: Outcome, buffer: seq<Octet>, steps: seq<PollStep>)

  /** The data bytes of a packet. */
  function Bytes(p: Reply): (b: seq<Octet>)
    requires p.numbytes >= 18
    ensures |b| == p.numbytes - 18
  {
    seq(p.numbytes - 18, i requires 0 <= i < p.numbytes - 18 => p.data(i))
  }

  /** The size is computed without sign, so a packet shorter than its header looks huge. */
  predicate GoodSize(p: Reply) {
    18 <= p.numbytes <= 18 + RECORD * 1024 && (p.numbytes - 18) % RECORD == 0
  }

  /** A whole number of 76-byte records, up to 1024 of them, behind 18 bytes of header. */
  lemma GoodSizeIff(p: Reply)
    ensures GoodSize(p) <==> exists n :: 0 <= n <= 1024 && Length(n) == p.numbytes
  {
    if GoodSize(p) {
      assert Length((p.numbytes - 18) / RECORD) == p.numbytes;
    }
  }

  function Length(n: int): int {
    18 + 76 * n
  }

  function Gather(replies: seq<Reply>, capacity: nat, buffer: seq<Octet>): Gathered {
    if replies == [] || replies[0].numbytes <= 0 then Gathered(TimedOut, buffer, [])
    else
      var p := replies[0];
      if p.cmd == FEB_EOF_CDR then Gathered(Done(|buffer|), buffer, [EndOfBoard(p.source)])
      else if p.cmd != FEB_DATA_CDR then Gathered(BadCommand, buffer, [])
      else if !GoodSize(p) then Gathered(BadSize, buffer, [])
      else if (|buffer| + (p.numbytes - 18)) / RECORD > capacity then Gathered(TooMany, buffer + Bytes(p), [])
      else
        var rest := Gather(replies[1..], capacity, buffer + Bytes(p));
        rest.(steps := [Data(p.data, p.numbytes - 18, p.source)] + rest.steps)
  }

  /** The first `k` replies are good data packets, and the next one is the end marker. */
  ghost predicate IsWhole(replies: seq<Reply>, k: nat) {
    && k < |replies| && replies[k].numbytes > 0 && replies[k].cmd == FEB_EOF_CDR
    && forall i | 0 <= i < k :: replies[i].cmd == FEB_DATA_CDR && GoodSize(replies[i])
  }

  function AllBytes(replies: seq<Reply>): seq<Octet>
    requires forall i | 0 <= i < |replies| :: GoodSize(replies[i])
  {
    if replies == [] then [] else
      assert GoodSize(replies[0]);
      Bytes(replies[0]) + AllBytes(replies[1..])
  }

  function DataSteps(replies: seq<Reply>): seq<PollStep> {
    if replies == [] then []
    else [Data(replies[0].data, replies[0].numbytes - 18, replies[0].source)] + DataSteps(replies[1..])
  }

  /** A read succeeds when the board sends good packets that fit and then the end marker, and it then returns exactly
      the bytes of those packets, in order, each of which the driver has decoded. */
  lemma {:induction false} WholeIsDone(replies: seq<Reply>, k: nat, capacity: nat, buffer: seq<Octet>)
    requires IsWhole(replies, k) && |buffer| % RECORD == 0
    requires |buffer| + |AllBytes(replies[..k])| <= RECORD * capacity
    ensures Gather(replies, capacity, buffer)
         == Gathered(Done(|buffer| + |AllBytes(replies[..k])|), buffer + AllBytes(replies[..k]),
                     DataSteps(replies[..k]) + [EndOfBoard(replies[k].source)])
    decreases k
  {
    hide Bytes, GoodSize;
    if k == 0 {
      assert buffer + [] == buffer && replies[..0] == [];
    } else {
      var p, rest := replies[0], replies[1..];
      assert replies[..k][0] == p && replies[..k][1..] == rest[..k - 1];
      Fits(buffer, p, AllBytes(rest[..k - 1]), capacity);
      WholeIsDone(rest, k - 1, capacity, buffer + Bytes(p));
      Associate(buffer, Bytes(p), AllBytes(rest[..k - 1]));
      Associate([Data(p.data, p.numbytes - 18, p.source)], DataSteps(rest[..k - 1]), [EndOfBoard(replies[k].source)]);
    }
  }

  lemma Associate<T>(a: seq<T>, b: seq<T>, c: seq<T>)
    ensures a + b + c == a + (b + c)
  {}

  lemma Fits(buffer: seq<Octet>, p: Reply, more: seq<Octet>, capacity: nat)
    requires GoodSize(p) && |buffer| % RECORD == 0 && |buffer| + (p.numbytes - 18) + |more| <= RECORD * capacity
    ensures (|buffer| + (p.numbytes - 18)) / RECORD <= capacity
    ensures |buffer + Bytes(p)| % RECORD == 0
  {}

  /** And only then. */
  lemma {:induction false} DoneIsWhole(replies: seq<Reply>, capacity: nat, buffer: seq<Octet>) returns (k: nat)
    requires |buffer| % RECORD == 0 && |buffer| <= RECORD * capacity
    requires Gather(replies, capacity, buffer).outcome.Done?
    ensures IsWhole(replies, k) && |buffer| + |AllBytes(replies[..k])| <= RECORD * capacity
    decreases |replies|
  {
    var p := replies[0];
    if p.cmd == FEB_EOF_CDR {
      k := 0;
      assert replies[..0] == [];
    } else {
      var rest := replies[1..];
      WithinCapacity(|buffer| + (p.numbytes - 18), capacity);
      var j := DoneIsWhole(rest, capacity, buffer + Bytes(p));
      k := j + 1;
      assert replies[..k][0] == p && replies[..k][1..] == rest[..j];
      assert forall i | 0 < i < k :: replies[i] == rest[i - 1];
    }
  }

  /** The replies before `k` are good data packets that fit. */
  ghost predicate GoodUntil(replies: seq<Reply>, k: nat, capacity: nat, size: nat) {
    && k <= |replies| && (forall i | 0 <= i < k :: replies[i].cmd == FEB_DATA_CDR && GoodSize(replies[i]))
    && size + |AllBytes(replies[..k])| <= RECORD * capacity
  }

  /** How a read ends, by the first reply that is not a good data packet that fits. */
  function EndedBy(replies: seq<Reply>, k: nat, size: nat): Outcome
    requires k <= |replies|
  {
    if k == |replies| || replies[k].numbytes <= 0 then TimedOut
    else if replies[k].cmd == FEB_EOF_CDR then Done(size)
    else if replies[k].cmd != FEB_DATA_CDR then BadCommand
    else if !GoodSize(replies[k]) then BadSize
    else TooMany
  }

  /** Every way to end, with what was gathered before it. */
  lemma {:induction false} EndOf(replies: seq<Reply>, k: nat, capacity: nat, buffer: seq<Octet>)
    requires |buffer| % RECORD == 0 && GoodUntil(replies, k, capacity, |buffer|)
    requires k < |replies| ==> !GoodUntil(replies, k + 1, capacity, |buffer|)
    ensures
      var g, size := Gather(replies, capacity, buffer), |buffer| + |AllBytes(replies[..k])|;
      && g.outcome == EndedBy(replies, k, size)
      && (!g.outcome.TooMany? ==> g.buffer == buffer + AllBytes(replies[..k]))
    decreases k
  {
    hide Bytes, GoodUntil, GoodSize;
    NoneYet(replies, capacity, |buffer|);
    SizeGood(replies, k, capacity, |buffer|);
    if k == 0 {
      assert buffer + [] == buffer;
      if replies != [] && replies[0].cmd == FEB_DATA_CDR && GoodSize(replies[0]) {
        OneReply(replies, capacity, |buffer|);
      }
    } else {
      var p, rest := replies[0], replies[1..];
      UntilIff(replies, k, capacity, |buffer|);
      if k < |replies| {
        UntilIff(replies, k + 1, capacity, |buffer|);
      }
      SizeGood(rest, k - 1, capacity, |buffer| + (p.numbytes - 18));
      Fits(buffer, p, AllBytes(rest[..k - 1]), capacity);
      EndOf(rest, k - 1, capacity, buffer + Bytes(p));
      Associate(buffer, Bytes(p), AllBytes(rest[..k - 1]));
    }
  }

  lemma NoneYet(replies: seq<Reply>, capacity: nat, size: nat)
    ensures replies[..0] == [] && AllBytes([]) == []
  {}

  lemma SizeGood(replies: seq<Reply>, k: nat, capacity: nat, size: nat)
    requires GoodUntil(replies, k, capacity, size)
    ensures k <= |replies| && forall i | 0 <= i < k :: GoodSize(replies[i])
    ensures size + |AllBytes(replies[..k])| <= RECORD * capacity
  {
    hide GoodSize;
  }

  lemma UntilIff(replies: seq<Reply>, k: nat, capacity: nat, size: nat)
    requires 0 < k <= |replies|
    ensures GoodUntil(replies, k, capacity, size)
        <==> replies[0].cmd == FEB_DATA_CDR && GoodSize(replies[0])
             && GoodUntil(replies[1..], k - 1, capacity, size + (replies[0].numbytes - 18))
    ensures GoodUntil(replies, k, capacity, size)
        ==> AllBytes(replies[..k]) == Bytes(replies[0]) + AllBytes(replies[1..][..k - 1])
  {
    hide GoodSize;
    assert replies[..k][0] == replies[0] && replies[..k][1..] == replies[1..][..k - 1];
    assert forall i | 0 <= i < k - 1 :: replies[1..][i] == replies[i + 1];
  }

  lemma OneReply(replies: seq<Reply>, capacity: nat, size: nat)
    requires replies != [] && size % RECORD == 0 && GoodSize(replies[0])
    requires replies[0].cmd == FEB_DATA_CDR && !GoodUntil(replies, 1, capacity, size)
    ensures (size + (replies[0].numbytes - 18)) / RECORD > capacity
  {
    assert replies[..1][0] == replies[0] && replies[..1][1..] == [];
    assert |AllBytes(replies[..1])| == replies[0].numbytes - 18;
    TooLarge(size + (replies[0].numbytes - 18), capacity);
  }

  lemma TooLarge(size: nat, capacity: nat)
    requires size % RECORD == 0
    ensures size / RECORD > capacity <==> size > RECORD * capacity
  {}

  lemma WithinCapacity(size: nat, capacity: nat)
    requires size % RECORD == 0 && size / RECORD <= capacity
    ensures size <= RECORD * capacity
  {}

  /** The loop. `replies` are what the receive calls deliver until they time out. */
  method GetFebData(drv: Febdrv, replies: seq<Reply>, capacity: nat) returns (outcome: Outcome, buffer: seq<Octet>)
    requires drv.Valid()
    modifies drv, drv.buffers.evbuf, drv.buffers.evnum, drv.buffers.evbufstat
    ensures drv.Valid()
    ensures
      var g := Gather(replies, capacity, []);
      && outcome == g.outcome && buffer == g.buffer
      && drv.AsState() == Poll(g.steps, drv.buffers.full, old(drv.AsState()))
  {
    hide Process, ChargeOverwritten, GoodSize;
    ghost var g := Gather(replies, capacity, []);
    ghost var goal := Poll(g.steps, drv.buffers.full, drv.AsState());
    buffer := [];
    var i := 0;
    assert replies[0..] == replies;
    while i < |replies| && replies[i].numbytes > 0
      invariant drv.Valid() && i <= |replies|
      invariant
        var rest := Gather(replies[i..], capacity, buffer);
        && rest.outcome == g.outcome && rest.buffer == g.buffer
        && Poll(rest.steps, drv.buffers.full, drv.AsState()) == goal
    {
      var p := replies[i];
      assert replies[i..][0] == p && replies[i..][1..] == replies[i + 1..];
      Receive(drv, p);
      if p.cmd == FEB_EOF_CDR {
        drv.UpdateOverwritten();
        return Done(|buffer|), buffer;
      }
      if p.cmd != FEB_DATA_CDR {
        return BadCommand, buffer;
      }
      if !GoodSize(p) {
        return BadSize, buffer;
      }
      var events := (|buffer| + (p.numbytes - 18)) / RECORD;
      buffer := buffer + Bytes(p);
      if events > capacity {
        return TooMany, buffer;
      }
      drv.ProcessL2Pack(p.numbytes - 18);
      i := i + 1;
    }
    outcome := TimedOut;
  }

  /** A received packet replaces the previous one. */
  method Receive(drv: Febdrv, p: Reply)
    requires drv.Valid()
    modifies drv`numbytes, drv`cmd, drv`source, drv`data
    ensures drv.Valid() && drv.AsState() == old(drv.AsState())
    ensures drv.data == p.data && drv.source == p.source
  {
    drv.numbytes, drv.cmd, drv.source, drv.data := p.numbytes, p.cmd, p.source, p.data;
  }
}
