/** Which events of a batch are taken, told by their raw timestamps and flag bits: bit 0 is clear when the clock turned
    over, bit 2 is set on a reference pulse. */
module OrderTest {
  import opened Events
  import opened FebBuffer

  /** A timestamp that does not grow, neither after a reference pulse nor on a turnover of the clock. */
  predicate StepsBack(prev: Event, cur: Event) {
    cur.ts0 <= prev.ts0 && prev.flags / 4 % 2 == 0 && cur.flags % 2 == 1
  }

  /** A timestamp that grows by more than the board's limit. */
  predicate Jumps(prev: Event, cur: Event, maxTimeDiff: int) {
    cur.ts0 > prev.ts0 && cur.ts0 - prev.ts0 > maxTimeDiff
  }

  /** Event `k` does not continue the ones before it. */
  predicate Breaks(batch: seq<Event>, k: nat, maxTimeDiff: int)
    requires 0 < k < |batch|
  {
    StepsBack(batch[k - 1], batch[k]) || Jumps(batch[k - 1], batch[k], maxTimeDiff)
  }

  /** The entries of one batch, field by field: its first `good` events, each with the span of its poll, and the number
      of the others on the last entry. */
  ghost predicate Takes(r: Rings, batch: seq<Event>, good: nat, span: Span) {
    && 1 <= good <= |batch| && |r.events| == |r.spans| == |r.dropped| == good
    && (forall i | 0 <= i < good :: r.events[i] == batch[i] && r.spans[i] == span)
    && (forall i | 0 <= i < good - 1 :: r.dropped[i] == 0) && r.dropped[good - 1] == |batch| - good
  }

  lemma InOrderIff(batch: seq<Event>, k: nat, maxTimeDiff: int)
    requires 0 < k < |batch|
    ensures InOrder(batch[k - 1], batch[k], maxTimeDiff) <==> !Breaks(batch, k, maxTimeDiff)
  {}

  lemma GoodUntilBreak(batch: seq<Event>, maxTimeDiff: int, good: nat)
    requires 1 <= good <= |batch|
    requires forall k | 0 < k < good :: !Breaks(batch, k, maxTimeDiff)
    requires good < |batch| ==> Breaks(batch, good, maxTimeDiff)
    ensures GoodCount(batch, maxTimeDiff) == good
  {
    var n := GoodCount(batch, maxTimeDiff);
    hide GoodCount, InOrder, Breaks;
    if n < |batch| {
      InOrderIff(batch, n, maxTimeDiff);
    }
    if good < |batch| {
      InOrderIff(batch, good, maxTimeDiff);
    }
  }

  /** A batch is cut at the first event that steps back or jumps; that event and all after it are refused together, and
      only counted. */
  lemma CutAtFirstBreak(batch: seq<Event>, maxTimeDiff: int, span: Span, good: nat)
    requires 1 <= good <= |batch|
    requires forall k | 0 < k < good :: !Breaks(batch, k, maxTimeDiff)
    requires good < |batch| ==> Breaks(batch, good, maxTimeDiff)
    ensures Takes(BatchEntries(batch, maxTimeDiff, span), batch, good, span)
  {
    GoodUntilBreak(batch, maxTimeDiff, good);
    hide GoodCount, Breaks;
  }

  /** The first event that does not continue, or the length. */
  function FirstBreak(batch: seq<Event>, maxTimeDiff: int, from: nat): (good: nat)
    requires 1 <= from <= |batch|
    ensures from <= good <= |batch|
    ensures forall k | from <= k < good :: !Breaks(batch, k, maxTimeDiff)
    ensures good < |batch| ==> Breaks(batch, good, maxTimeDiff)
    decreases |batch| - from
  {
    if from == |batch| || Breaks(batch, from, maxTimeDiff) then from else FirstBreak(batch, maxTimeDiff, from + 1)
  }

  /** A batch is taken whole, with nothing refused, exactly when none of its events steps back or jumps. */
  lemma WholeIff(batch: seq<Event>, maxTimeDiff: int, span: Span)
    requires batch != []
    ensures Takes(BatchEntries(batch, maxTimeDiff, span), batch, |batch|, span)
        <==> forall k | 0 < k < |batch| :: !Breaks(batch, k, maxTimeDiff)
  {
    var good := FirstBreak(batch, maxTimeDiff, 1);
    CutAtFirstBreak(batch, maxTimeDiff, span, good);
    hide BatchEntries, Breaks;
  }

  /** `tick` is the board's clock at each event, in nanoseconds since it was last reset: the events carry its low 30
      bits and the phase offset, a reference pulse resets it, a turnover raises the overflow flag, and no step is longer
      than `maxTimeDiff`. */
  ghost predicate Ticks(batch: seq<Event>, tick: seq<nat>, maxTimeDiff: int) {
    && |tick| == |batch|
    && (forall i | 0 <= i < |batch| :: batch[i].ts0 == tick[i] % 0x4000_0000 + 5)
    && (forall i | 0 < i < |batch| ::
          if batch[i - 1].flags / 4 % 2 == 1 then tick[i] <= maxTimeDiff
          else
            && tick[i - 1] < tick[i] <= tick[i - 1] + maxTimeDiff
            && (tick[i] / 0x4000_0000 > tick[i - 1] / 0x4000_0000 ==> batch[i].flags % 2 == 0))
  }

  lemma LowBitsGrow(before: nat, after: nat)
    requires before <= after
    ensures after / 0x4000_0000 == before / 0x4000_0000
        ==> after % 0x4000_0000 - before % 0x4000_0000 == after - before
    ensures after % 0x4000_0000 - before % 0x4000_0000 <= after - before
    ensures after / 0x4000_0000 >= before / 0x4000_0000
  {}

  /** What such a clock produces is taken whole, across reference pulses and turnovers. */
  lemma ClockIsTaken(batch: seq<Event>, tick: seq<nat>, maxTimeDiff: int, span: Span)
    requires batch != [] && Ticks(batch, tick, maxTimeDiff)
    ensures Takes(BatchEntries(batch, maxTimeDiff, span), batch, |batch|, span)
  {
    forall k | 0 < k < |batch| ensures !Breaks(batch, k, maxTimeDiff) {
      if batch[k - 1].flags / 4 % 2 == 0 {
        LowBitsGrow(tick[k - 1], tick[k]);
      } else {
        LowBitsGrow(0, tick[k]);
      }
    }
    WholeIff(batch, maxTimeDiff, span);
    hide BatchEntries;
  }

  /** A reference pulse late in a second, and an event early in the next one: both are kept. */
  lemma AfterReference(pulse: Event, next: Event, maxTimeDiff: int, span: Span)
    requires pulse.ts0 == 1_000_000_005 && pulse.flags == 5 && next.ts0 == 1000 && next.flags == 1
    ensures Takes(BatchEntries([pulse, next], maxTimeDiff, span), [pulse, next], 2, span)
  {
    CutAtFirstBreak([pulse, next], maxTimeDiff, span, 2);
  }

  /** An insert keeps the order of a ring exactly when the first event of the batch continues the ring's last one. */
  lemma RingOrderIff(ring: seq<Event>, batch: seq<Event>, maxTimeDiff: int)
    requires ring != [] && batch != [] && forall k | 0 < k < |ring| :: !Breaks(ring, k, maxTimeDiff)
    ensures
      var all := ring + batch[..GoodCount(batch, maxTimeDiff)];
      (forall k | 0 < k < |all| :: !Breaks(all, k, maxTimeDiff))
        <==> !StepsBack(ring[|ring| - 1], batch[0]) && !Jumps(ring[|ring| - 1], batch[0], maxTimeDiff)
  {
    BreaksIffOutOfOrder(ring, maxTimeDiff);
    OrderAcrossBatches(ring, batch, maxTimeDiff);
    BreaksIffOutOfOrder(ring + batch[..GoodCount(batch, maxTimeDiff)], maxTimeDiff);
  }

  lemma BreaksIffOutOfOrder(events: seq<Event>, maxTimeDiff: int)
    requires events != []
    ensures OrderedFrom(events, 1, |events|, maxTimeDiff)
        <==> forall k | 0 < k < |events| :: !Breaks(events, k, maxTimeDiff)
  {
    hide InOrder, Breaks;
    if OrderedFrom(events, 1, |events|, maxTimeDiff) {
      forall k | 0 < k < |events| ensures !Breaks(events, k, maxTimeDiff) {
        InOrderIff(events, k, maxTimeDiff);
      }
    }
    forall k | 0 < k < |events| && !Breaks(events, k, maxTimeDiff)
      ensures InOrder(events[k - 1], events[k], maxTimeDiff)
    {
      InOrderIff(events, k, maxTimeDiff);
    }
  }
}
