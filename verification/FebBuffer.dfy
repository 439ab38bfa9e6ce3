/** The per-board parallel rings of the fragment builder, and the two operations that change their length. */
module FebBuffer {
  import opened Words
  import opened Events
  import opened Trailer

  /** The three parallel rings, oldest entry first. */
  datatype Rings = Rings(events: seq<Event>, spans: seq<Span>, dropped: seq<nat>)
  {
    predicate Aligned() {
      |events| == |spans| == |dropped|
    }

    function Append(more: Rings): Rings {
      Rings(events + more.events, spans + more.spans, dropped + more.dropped)
    }

    function Drop(n: nat): Rings
      requires Aligned() && n <= |events|
    {
      Rings(events[n..], spans[n..], dropped[n..])
    }
  }

  /** Appending to a full `boost::circular_buffer` overwrites its oldest entries. */
  function Push<T>(capacity: nat, ring: seq<T>, items: seq<T>): (r: seq<T>)
    ensures |r| == if |ring| + |items| <= capacity then |ring| + |items| else capacity
    ensures |ring| + |items| <= capacity ==> r == ring + items
  {
    Newest(capacity, ring + items)
  }

  /** The last `capacity` entries. */
  function Newest<T>(capacity: nat, s: seq<T>): (r: seq<T>)
    ensures |r| == if |s| <= capacity then |s| else capacity
    ensures |s| <= capacity ==> r == s
  {
    if |s| <= capacity then s else s[|s| - capacity..]
  }

  /** The order test between neighbouring events: time may only fail to grow after a reference pulse or on an
      overflow, and may not jump by more than the board's limit. */
  predicate InOrder(prev: Event, cur: Event, maxTimeDiff: int) {
    if cur.Time() <= prev.Time() then prev.IsReference() || cur.IsOverflow()
    else cur.Time() - prev.Time() <= maxTimeDiff
  }

  /** Neighbouring events at positions `from`..`to` pass the order test. */
  ghost predicate OrderedFrom(events: seq<Event>, from: nat, to: nat, maxTimeDiff: int)
    requires 1 <= from && to <= |events|
  {
    forall i | from <= i < to :: InOrder(events[i - 1], events[i], maxTimeDiff)
  }

  /** `good` events of the batch are taken: a non-empty prefix in order that cannot be extended. */
  ghost predicate IsAccepted(batch: seq<Event>, maxTimeDiff: int, good: nat) {
    && 1 <= good <= |batch|
    && OrderedFrom(batch, 1, good, maxTimeDiff)
    && (good < |batch| ==> !InOrder(batch[good - 1], batch[good], maxTimeDiff))
  }

  /** Number of events taken from a batch. */
  function GoodCount(batch: seq<Event>, maxTimeDiff: int): (good: nat)
    requires batch != []
    ensures IsAccepted(batch, maxTimeDiff, good)
  {
    GoodFrom(batch, maxTimeDiff, 1)
  }

  function GoodFrom(batch: seq<Event>, maxTimeDiff: int, from: nat): (good: nat)
    requires 1 <= from <= |batch|
    ensures from <= good <= |batch| && OrderedFrom(batch, from, good, maxTimeDiff)
    ensures good < |batch| ==> !InOrder(batch[good - 1], batch[good], maxTimeDiff)
    decreases |batch| - from
  {
    if from < |batch| && InOrder(batch[from - 1], batch[from], maxTimeDiff) then
      GoodFrom(batch, maxTimeDiff, from + 1)
    else
      from
  }

  /** The entries one batch contributes: every accepted event carries the poll span, and the last one also the
      number of events of the batch that were refused. */
  function BatchEntries(batch: seq<Event>, maxTimeDiff: int, span: Span): (r: Rings)
    requires batch != []
    ensures r.Aligned() && 1 <= |r.events| <= |batch| && r.events == batch[..|r.events|]
  {
    var good := GoodCount(batch, maxTimeDiff);
    Rings(batch[..good], seq(good, _ => span), Zeros(good - 1) + [|batch| - good])
  }

  function Zeros(n: nat): seq<nat> {
    seq(n, _ => 0)
  }

  function Sum(s: seq<nat>): nat {
    if s == [] then 0 else s[0] + Sum(s[1..])
  }

  lemma {:induction false} SumAppend(a: seq<nat>, b: seq<nat>)
    ensures Sum(a + b) == Sum(a) + Sum(b)
  {
    if a == [] {
      assert a + b == b;
    } else {
      assert (a + b)[1..] == a[1..] + b;
      SumAppend(a[1..], b);
    }
  }

  lemma {:induction false} SumZeros(n: nat)
    ensures Sum(Zeros(n)) == 0
  {
    if n > 0 {
      assert Zeros(n)[1..] == Zeros(n - 1);
      SumZeros(n - 1);
    }
  }

  /** How many events a ring content stands for: those present, and those refused and only counted. */
  function Weight(r: Rings): nat {
    |r.events| + Sum(r.dropped)
  }

  /** No event of a batch goes unaccounted. */
  lemma BatchWeight(batch: seq<Event>, maxTimeDiff: int, span: Span)
    requires batch != []
    ensures Weight(BatchEntries(batch, maxTimeDiff, span)) == |batch|
  {
    var good := GoodCount(batch, maxTimeDiff);
    SumAppend(Zeros(good - 1), [|batch| - good]);
    SumZeros(good - 1);
  }

  lemma WeightAppend(r: Rings, more: Rings)
    ensures Weight(r.Append(more)) == Weight(r) + Weight(more)
  {
    SumAppend(r.dropped, more.dropped);
  }

  lemma WeightSplit(r: Rings, n: nat)
    requires r.Aligned() && n <= |r.events|
    ensures Weight(r) == n + Sum(r.dropped[..n]) + Weight(r.Drop(n))
  {
    SumAppend(r.dropped[..n], r.dropped[n..]);
    assert r.dropped[..n] + r.dropped[n..] == r.dropped;
  }

  /** Inserting keeps a ring in order exactly when the new batch also starts in order after the ring's last event, which
      the scan of the batch does not look at. */
  lemma OrderAcrossBatches(ring: seq<Event>, batch: seq<Event>, maxTimeDiff: int)
    requires ring != [] && batch != [] && OrderedFrom(ring, 1, |ring|, maxTimeDiff)
    ensures
      var all := ring + batch[..GoodCount(batch, maxTimeDiff)];
      OrderedFrom(all, 1, |all|, maxTimeDiff) <==> InOrder(ring[|ring| - 1], batch[0], maxTimeDiff)
  {
    var n := |ring|;
    var all := ring + batch[..GoodCount(batch, maxTimeDiff)];
    assert InOrder(ring[n - 1], batch[0], maxTimeDiff) <==> InOrder(all[n - 1], all[n], maxTimeDiff);
    forall i | 1 <= i < |all| && i != n ensures InOrder(all[i - 1], all[i], maxTimeDiff) {
      if i > n {
        assert InOrder(batch[i - n - 1], batch[i - n], maxTimeDiff);
      }
    }
    hide InOrder, GoodCount;
  }

  /** An insert of no events stores the record at its position all the same, and counts 0 - 1 refused ones. */
  function EmptyBatchEntries(record: Event, span: Span): (r: Rings)
    ensures r.Aligned()
  {
    Rings([record], [span], [0xFFFF_FFFF])
  }

  /** Appending to all three rings, which forget their oldest entries when they are full. */
  function PushAll(capacity: nat, r: Rings, more: Rings): Rings {
    Rings(Push(capacity, r.events, more.events), Push(capacity, r.spans, more.spans),
          Push(capacity, r.dropped, more.dropped))
  }

  lemma OneEntry(record: Event, span: Span, refused: nat)
    ensures seq(1, _ => span) == [span] && Zeros(0) + [refused] == [refused]
  {}

  /** The newest entries stay: the items pushed are at the end, as far as there is capacity, and before them the
      end of the ring. */
  lemma PushKeepsNewest<T>(capacity: nat, ring: seq<T>, items: seq<T>, k: nat)
    requires k < capacity && k < |ring| + |items|
    ensures
      var r := Push(capacity, ring, items);
      k < |r| && r[|r| - 1 - k] == if k < |items| then items[|items| - 1 - k] else ring[|ring| + |items| - 1 - k]
  {}

  lemma DropTwice<T>(s: seq<T>, m: nat, n: nat)
    requires m + n <= |s|
    ensures s[m..][n..] == s[m + n..]
  {}

  lemma DropAppend<T>(s: seq<T>, n: nat, t: seq<T>)
    requires n <= |s|
    ensures s[n..] + t == (s + t)[n..]
  {}

  lemma NewestOfLonger<T>(capacity: nat, s: seq<T>, n: nat)
    requires n + capacity <= |s|
    ensures Newest(capacity, s[n..]) == Newest(capacity, s)
  {
    DropTwice(s, n, |s| - n - capacity);
  }

  lemma NewestTwice<T>(capacity: nat, s: seq<T>, t: seq<T>)
    ensures Newest(capacity, Newest(capacity, s) + t) == Newest(capacity, s + t)
  {
    if |s| > capacity {
      DropAppend(s, |s| - capacity, t);
      NewestOfLonger(capacity, s + t, |s| - capacity);
    }
  }

  /** Pushing in two steps. */
  lemma PushTwice<T>(capacity: nat, ring: seq<T>, first: seq<T>, second: seq<T>)
    ensures Push(capacity, Push(capacity, ring, first), second) == Push(capacity, ring, first + second)
  {
    hide Newest;
    NewestTwice(capacity, ring + first, second);
    assert ring + first + second == ring + (first + second);
  }

  /** Poll span recorded for a batch: it starts where the previous one ended, or at the start of this poll if
      there was none. */
  function SpanOf(lastTimenow: TimeVal, trailer: Event): Span {
    (if lastTimenow.sec == 0 then ReadPollStart(trailer).ToTimeVal() else lastTimenow,
     ReadPollFinish(trailer).ToTimeVal())
  }

  /** Read from a trailer of the driver: the times are those of the poll, in seconds and microseconds. */
  lemma SpanOfTrailer(lastTimenow: TimeVal, slot: Event, count: Uint32, start: Timeb, finish: Timeb)
    ensures
      var span := SpanOf(lastTimenow, MakeTrailer(slot, count, start, finish));
      && span.0 == (if lastTimenow.sec != 0 then lastTimenow else TimeVal(start.time, start.millitm * 1000))
      && span.1 == TimeVal(finish.time, finish.millitm * 1000)
  {
    TrailerRoundTrip(slot, count, start, finish);
    hide MakeTrailer;
  }

  class FebBuffer {
    const capacity: nat
    const maxTimeDiff: int
    const id: int
    var buffer: seq<Event>
    var timebuffer: seq<Span>
    var droppedbuffer: seq<nat>
    var overwrittenCounter: int
    var lastTimenow: TimeVal

    ghost predicate Valid()
      reads this
    {
      View().Aligned() && |buffer| <= capacity
    }

    ghost function View(): Rings
      reads this
    {
      Rings(buffer, timebuffer, droppedbuffer)
    }

    constructor (capacity: nat, maxTimeDiff: int, id: int)
      ensures this.capacity == capacity && this.maxTimeDiff == maxTimeDiff && this.id == id
      ensures Valid() && View() == Rings([], [], []) && overwrittenCounter == 0 && lastTimenow == TimeVal(0, 0)
    {
      this.capacity, this.maxTimeDiff, this.id := capacity, maxTimeDiff, id;
      buffer, timebuffer, droppedbuffer := [], [], [];
      overwrittenCounter, lastTimenow := 0, TimeVal(0, 0);
    }

    /** Scans a batch for its longest prefix in order. */
    method CountGood(zmq: array<Event>, begin: nat, n: nat) returns (good: nat)
      requires begin < zmq.Length && begin + n <= zmq.Length
      ensures good == if n == 0 then 1 else GoodCount(zmq[begin..begin + n], maxTimeDiff)
    {
      ghost var batch := zmq[begin..begin + n];
      var last := zmq[begin];
      good := 1;
      while good < n
        invariant n == 0 ==> good == 1
        invariant n > 0 ==> 1 <= good <= n && last == batch[good - 1]
        invariant n > 0 ==> GoodFrom(batch, maxTimeDiff, good) == GoodCount(batch, maxTimeDiff)
      {
        var cur := zmq[begin + good];
        assert cur == batch[good];
        if cur.Time() <= last.Time() {
          if !(last.IsReference() || cur.IsOverflow()) {
            break;
          }
        } else if cur.Time() - last.Time() > maxTimeDiff {
          break;
        }
        last := cur;
        good := good + 1;
      }
    }

    /** The poll span of a new batch, remembering where the next one starts. */
    method NextSpan(trailer: Event) returns (span: Span)
      modifies this`lastTimenow
      ensures span == SpanOf(old(lastTimenow), trailer) && lastTimenow == span.1
    {
      var timenow := ReadPollFinish(trailer).ToTimeVal();
      if lastTimenow.sec == 0 {
        lastTimenow := ReadPollStart(trailer).ToTimeVal();
      }
      span := (lastTimenow, timenow);
      lastTimenow := timenow;
    }

    /** Appends to the rings, the events last. */
    method Append(taken: seq<Event>, span: Span, refused: nat)
      requires Valid() && taken != []
      modifies this`buffer, this`timebuffer, this`droppedbuffer
      ensures Valid()
      ensures View() == PushAll(capacity, old(View()),
        Rings(taken, seq(|taken|, _ => span), Zeros(|taken| - 1) + [refused]))
    {
      hide Newest;
      PushTwice(capacity, droppedbuffer, Zeros(|taken| - 1), [refused]);
      timebuffer := Push(capacity, timebuffer, seq(|taken|, _ => span));
      droppedbuffer := Push(capacity, droppedbuffer, Zeros(|taken| - 1));
      droppedbuffer := Push(capacity, droppedbuffer, [refused]);
      buffer := Push(capacity, buffer, taken);
    }

    /** Appends the acceptable prefix of `zmq[begin..begin + n]`. The precondition on room is the exit condition of
        the loop that waits for it; `zmq[total - 1]` is the trailer of the message. */
    method Insert(zmq: array<Event>, begin: nat, n: nat, total: nat) returns (size: nat)
      requires Valid() && n <= capacity - |buffer|
      requires begin < zmq.Length && begin + n <= zmq.Length && 1 <= total <= zmq.Length
      modifies this`buffer, this`timebuffer, this`droppedbuffer, this`lastTimenow
      ensures Valid() && size == |buffer|
      ensures n > 0 ==> View() == old(View()).Append(
        BatchEntries(zmq[begin..begin + n], maxTimeDiff, SpanOf(old(lastTimenow), zmq[total - 1])))
      ensures n == 0 ==> View() == PushAll(capacity, old(View()),
        EmptyBatchEntries(zmq[begin], SpanOf(old(lastTimenow), zmq[total - 1])))
      ensures lastTimenow == SpanOf(old(lastTimenow), zmq[total - 1]).1
    {
      var good := CountGood(zmq, begin, n);
      var trailer := zmq[total - 1];
      var taken := zmq[begin..begin + good];
      assert n > 0 ==> taken == zmq[begin..begin + n][..good];
      assert n == 0 ==> taken == [zmq[begin]];
      var refused: nat := if good <= n then n - good else 0xFFFF_FFFF;
      var span := NextSpan(trailer);
      Append(taken, span, refused);
      OneEntry(zmq[begin], span, refused);
      size := |buffer|;
    }

    /** Removes the `n` oldest entries of every ring. */
    method Erase(n: nat) returns (size: nat)
      requires Valid() && n <= |buffer|
      modifies this`buffer, this`timebuffer, this`droppedbuffer
      ensures Valid() && size == |buffer|
      ensures View() == old(View()).Drop(n)
    {
      droppedbuffer := droppedbuffer[n..];
      timebuffer := timebuffer[n..];
      buffer := buffer[n..];
      size := |buffer|;
    }
  }
}
