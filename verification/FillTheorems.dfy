/** What the fragments of one fill contain, as a whole and window by window. */
module FillTheorems {
  import opened Words
  import opened Events
  import opened FebBuffer
  import opened Unwrap
  import opened Windows
  import opened SequenceIds
  import opened Fill

  function Payloads(frags: seq<Fragment>): seq<Event> {
    if frags == [] then [] else Payloads(frags[..|frags| - 1]) + frags[|frags| - 1].payload
  }

  function TotalTally(frags: seq<Fragment>): Tally {
    if frags == [] then NoEvents else TotalTally(frags[..|frags| - 1]).Plus(frags[|frags| - 1].meta.tally)
  }

  lemma LastOut<T>(s: seq<T>, x: T)
    ensures (s + [x])[..|s + [x]| - 1] == s && (s + [x])[|s + [x]| - 1] == x
  {}

  lemma JoinSlices<T>(s: seq<T>, mid: nat, to: nat)
    requires mid <= to <= |s|
    ensures s[..mid] + s[mid..to] == s[..to]
  {}

  /** For every input, the payloads concatenate to a prefix of the events up to the reference: no gap, no duplicate,
      no reordering. */
  lemma {:induction false} PayloadsPartition(p: Plan, n: nat)
    requires p.Valid()
    ensures Payloads(FragmentsOf(p, n)) == p.events[..p.CutAt(n)]
  {
    hide Plan.FragmentAt, Plan.CutAt, Plan.TallyBetween, Fragment.Verify;
    if n > 0 {
      PayloadsPartition(p, n - 1);
      FragmentParts(p, n - 1);
      LastOut(FragmentsOf(p, n - 1), p.FragmentAt(n - 1));
      JoinSlices(p.events, p.CutAt(n - 1), p.CutAt(n));
    }
  }

  /** The fragment counters add up to what that prefix counts for. */
  lemma {:induction false} CountersAddUp(p: Plan, n: nat)
    requires p.Valid()
    ensures TotalTally(FragmentsOf(p, n)) == p.TallyBetween(0, p.CutAt(n))
  {
    hide Plan.FragmentAt, Plan.CutAt, TallyOf, Fragment.Verify;
    NothingCounted(p.events, p.dropped, p.counter);
    if n > 0 {
      CountersAddUp(p, n - 1);
      FragmentParts(p, n - 1);
      LastOut(FragmentsOf(p, n - 1), p.FragmentAt(n - 1));
      TallySplit(p.events, p.dropped, p.counter, p.CutAt(n - 1), p.CutAt(n));
    }
  }

  lemma NothingCounted(events: seq<Event>, dropped: seq<nat>, counter: int)
    requires |events| == |dropped|
    ensures TallyOf(events, dropped, counter, 0, 0) == NoEvents
  {}

  /** What the 32-bit fields of the metadata hold of a tally. */
  function Stored(t: Tally): Tally {
    Tally(ToUint32(t.missed), ToUint32(t.overwritten), ToUint32(t.dropped), ToUint32(t.nEvents))
  }

  /** Incrementing the fields event by event, or adding up those of several fragments, in 32 bits. */
  lemma StoredPlus(a: Tally, b: Tally)
    ensures Stored(Stored(a).Plus(b)) == Stored(a.Plus(b)) == Stored(Stored(a).Plus(Stored(b)))
  {
    ToUint32Plus(a.missed, b.missed);
    ToUint32Plus(a.overwritten, b.overwritten);
    ToUint32Plus(a.dropped, b.dropped);
    ToUint32Plus(a.nEvents, b.nEvents);
    ToUint32Plus(b.missed, ToUint32(a.missed));
    ToUint32Plus(b.overwritten, ToUint32(a.overwritten));
    ToUint32Plus(b.dropped, ToUint32(a.dropped));
    ToUint32Plus(b.nEvents, ToUint32(a.nEvents));
    hide ToUint32;
  }

  function TotalStored(frags: seq<Fragment>): Tally {
    if frags == [] then NoEvents
    else Stored(TotalStored(frags[..|frags| - 1]).Plus(Stored(frags[|frags| - 1].meta.tally)))
  }

  lemma {:induction false} TotalStoredIsStored(frags: seq<Fragment>)
    ensures TotalStored(frags) == Stored(TotalTally(frags))
  {
    if frags != [] {
      var front, last := frags[..|frags| - 1], frags[|frags| - 1].meta.tally;
      TotalStoredIsStored(front);
      StoredPlus(TotalTally(front), last);
      hide Stored;
    }
  }

  /** So the metadata's own counters add up too, modulo 2^32. */
  lemma StoredCountersAddUp(p: Plan, n: nat)
    requires p.Valid()
    ensures TotalStored(FragmentsOf(p, n)) == Stored(p.TallyBetween(0, p.CutAt(n)))
  {
    CountersAddUp(p, n);
    TotalStoredIsStored(FragmentsOf(p, n));
    hide Stored, TotalStored, TotalTally, FragmentsOf;
  }

  /** Every fragment announces the number of events that it carries. */
  lemma FragmentsVerify(p: Plan, n: nat, k: nat)
    requires p.Valid() && k < n
    ensures FragmentsOf(p, n)[k].Verify()
  {
    hide Plan.FragmentAt;
    FragmentsOfAt(p, n, k);
    FragmentParts(p, k);
  }

  lemma TallySplit(events: seq<Event>, dropped: seq<nat>, counter: int, mid: nat, to: nat)
    requires mid <= to <= |events| == |dropped|
    ensures TallyOf(events, dropped, counter, 0, to)
         == TallyOf(events, dropped, counter, 0, mid).Plus(TallyOf(events, dropped, counter, mid, to))
  {
    JoinSlices(events, mid, to);
    JoinSlices(dropped, mid, to);
    SumAppend(dropped[..mid], dropped[mid..to]);
    MissedAppend(events[..mid], events[mid..to]);
    OverwrittenAppend(counter, events[..mid], events[mid..to]);
  }

  lemma {:induction false} MissedAppend(a: seq<Event>, b: seq<Event>)
    ensures Missed(a + b) == Missed(a) + Missed(b)
  {
    if b == [] {
      assert a + b == a;
    } else {
      assert (a + b)[..|a + b| - 1] == a + b[..|b| - 1];
      MissedAppend(a, b[..|b| - 1]);
    }
  }

  lemma {:induction false} OverwrittenAppend(counter: int, a: seq<Event>, b: seq<Event>)
    ensures Overwritten(counter, a + b) == Overwritten(counter, a) + Overwritten(CounterAfter(counter, a), b)
  {
    if b == [] {
      assert a + b == a;
    } else {
      var b' := b[..|b| - 1];
      assert (a + b)[..|a + b| - 1] == a + b';
      OverwrittenAppend(counter, a, b');
      assert CounterAfter(counter, a + b') == CounterAfter(CounterAfter(counter, a), b');
    }
  }

  lemma TotalSnoc(frags: seq<Fragment>, last: Fragment)
    ensures TotalTally(frags + [last]) == TotalTally(frags).Plus(last.meta.tally)
  {
    LastOut(frags, last);
  }

  lemma {:induction false} TotalAppend(a: seq<Fragment>, b: seq<Fragment>)
    ensures TotalTally(a + b) == TotalTally(a).Plus(TotalTally(b))
  {
    if b == [] {
      assert a + b == a;
    } else {
      var before, last := b[..|b| - 1], b[|b| - 1];
      TotalAppend(a, before);
      TotalSnoc(a + before, last);
      assert a + b == (a + before) + [last] by {
        assert b == before + [last];
      }
    }
  }

  /** The losses counted for events are those that the events carry. */
  lemma {:induction false} MissedIsSum(events: seq<Event>)
    ensures Missed(events) == Sum(seq(|events|, i requires 0 <= i < |events| => events[i].lostFpga))
  {
    var all := seq(|events|, i requires 0 <= i < |events| => events[i].lostFpga);
    if events != [] {
      var n := |events| - 1;
      MissedIsSum(events[..n]);
      assert all == seq(n, i requires 0 <= i < n => events[..n][i].lostFpga) + [events[n].lostFpga];
      SumAppend(all[..n], [events[n].lostFpga]);
    }
  }

  /** The overwrite counter never decreases from its last known value. */
  ghost predicate CounterGrows(counter: int, events: seq<Event>) {
    forall i | 0 <= i < |events| :: CounterAfter(counter, events[..i]) <= events[i].lostCpu
  }

  /** The overwrites reported are at least the net growth of the board's counter, and exactly that when it never
      went back. */
  lemma {:induction false} OverwrittenTelescopes(counter: int, events: seq<Event>)
    ensures Overwritten(counter, events) >= CounterAfter(counter, events) - counter
    ensures Overwritten(counter, events) == CounterAfter(counter, events) - counter <==> CounterGrows(counter, events)
  {
    if events != [] {
      var n := |events| - 1;
      var before := events[..n];
      OverwrittenTelescopes(counter, before);
      assert forall i | 0 <= i < n :: before[..i] == events[..i];
      assert CounterGrows(counter, events)
        <==> CounterGrows(counter, before) && CounterAfter(counter, before) <= events[n].lostCpu;
    }
  }

  /** Event `i` lies in window `k`, which excludes its begin except for the first window. */
  predicate InWindow(p: Plan, i: nat, k: nat)
    requires i < |p.corrected|
  {
    p.Within(i, (k + 1) * p.window) && (k > 0 ==> !p.Within(i, k * p.window))
  }

  /** Without any assumption on the times, no event is beyond the end of its window, and the first one of a payload
      is in its window. */
  lemma PayloadNotBeyond(p: Plan, k: nat, i: nat)
    requires p.Short() && p.CutAt(k) <= i < p.CutAt(k + 1)
    ensures p.Within(i, (k + 1) * p.window)
    ensures i == p.CutAt(k) ==> InWindow(p, i, k)
  {
    ShortWindow(p, k);
    if k > 0 {
      CutIsFirstBeyond(p, k);
    }
  }

  /** When corrected times do not decrease, fragment `k` holds exactly the events whose scaled time is in window `k`. */
  lemma PayloadIffInWindow(p: Plan, k: nat, i: nat)
    requires p.Short() && NonDecreasing(p.corrected) && i < |p.corrected|
    ensures p.CutAt(k) <= i < p.CutAt(k + 1) <==> InWindow(p, i, k)
  {
    AfterCutIffBeyond(p, k, i);
    AfterCutIffBeyond(p, k + 1, i);
  }

  lemma AfterCutIffBeyond(p: Plan, k: nat, i: nat)
    requires p.Short() && NonDecreasing(p.corrected) && i < |p.corrected|
    ensures k > 0 ==> (p.CutAt(k) <= i <==> !p.Within(i, k * p.window))
  {
    if k > 0 {
      CutIsFirstBeyond(p, k);
      var j := p.CutAt(k);
      if j <= i {
        assert p.corrected[j] <= p.corrected[i];
      }
    }
  }

  /** All the events that are about to be erased were put in a fragment. */
  predicate Complete(p: Plan)
    requires p.Valid()
  {
    p.CutAt(p.Count()) == |p.events|
  }

  /** Nothing is lost exactly when there is a window and no scaled time lies beyond the last one. */
  lemma CompleteIffAllWithin(p: Plan)
    requires p.Short() && p.events != []
    ensures Complete(p) <==> p.Count() > 0 && forall i: nat | i < |p.corrected| :: p.Within(i, p.Count() * p.window)
  {
    var n := p.Count();
    if n > 0 {
      CutIsFirstBeyond(p, n);
    }
    if n > 0 && p.CutAt(n) < |p.corrected| {
      assert !p.Within(p.CutAt(n), n * p.window);
    }
  }

  /** With non-decreasing times, exactly when the reference itself is not beyond the last window. */
  lemma CompleteIffReferenceWithin(p: Plan)
    requires p.Short() && p.events != [] && NonDecreasing(p.corrected)
    ensures Complete(p) <==> p.Count() > 0 && p.Within(|p.corrected| - 1, p.Count() * p.window)
  {
    if p.Count() > 0 {
      AfterCutIffBeyond(p, p.Count(), |p.corrected| - 1);
    }
  }

  /** The plan of a fill from rings whose reference ends a poll within 32-bit times. */
  ghost predicate Fillable(r: Rings, window: Uint32) {
    && r.Aligned() && FirstReference(r.events) < |r.events| && MS <= window <= SEC
    && 0 < r.spans[FirstReference(r.events)].0.sec < TWO_TO_32
    && NonDecreasing(CorrectedTimes(r.events, FirstReference(r.events) + 1))
  }

  function Elapsed(r: Rings): int
    requires r.Aligned() && FirstReference(r.events) < |r.events|
  {
    ElapsedSecs(Corrected(r.events, FirstReference(r.events)))
  }

  /** Whole seconds in the poll span of the reference. */
  function PollSecs(r: Rings): int
    requires r.Aligned() && FirstReference(r.events) < |r.events|
  {
    var span := r.spans[FirstReference(r.events)];
    span.1.sec - span.0.sec
  }

  lemma SecondsCovered(span: Span, elapsed: int)
    requires 0 < span.0.sec < TWO_TO_32 && 0 <= elapsed < TWO_TO_32
    ensures
      var secs := span.1.sec - span.0.sec;
      span.1.sec - FirstSecond(span, ToUint32(elapsed)) == if secs == ToUint32(elapsed - 1) then secs + 1 else secs
  {}

  /** The facts about a plan that decide whether it is complete. */
  lemma PlanFacts(r: Rings, window: Uint32, base: Uint32, counter: int, febId: int)
    requires Fillable(r, window) && 0 <= Elapsed(r) < TWO_TO_32
    ensures
      var p := PlanOf(r, window, base, counter, febId);
      var c := Corrected(r.events, FirstReference(r.events));
      && p.Short() && p.events != [] && NonDecreasing(p.corrected) && p.corrected[|p.corrected| - 1] == c
      && p.correction == Elapsed(r) * SEC - c && -500_000_000 <= p.correction < 500_000_000
      && p.secondSec - p.firstSec
           == if PollSecs(r) == ToUint32(Elapsed(r) - 1) then PollSecs(r) + 1 else PollSecs(r)
  {
    var g := FirstReference(r.events);
    CorrectionExact(Corrected(r.events, g));
    SecondsCovered(r.spans[g], Elapsed(r));
    hide ElapsedSecs, TimeCorrection, FirstSecond, Corrected;
  }

  /** Every fragment of a fill carries the distance from the reference to the nearest second, and the board's id. */
  lemma FragmentCalibration(r: Rings, window: Uint32, base: Uint32, counter: int, febId: int, n: nat, k: nat)
    requires r.Aligned() && FirstReference(r.events) < |r.events| && window > 0 && k < n
    ensures
      var c := Corrected(r.events, FirstReference(r.events));
      var meta := FragmentsOf(PlanOf(r, window, base, counter, febId), n)[k].meta;
      && (meta.correction + c) % 1_000_000_000 == 0 && -500_000_000 <= meta.correction < 500_000_000
      && meta.febId == febId
  {
    hide Corrected, FirstReference, FragmentsOf, TimeCorrection, Plan.FragmentAt, Plan.CutAt, Fragment.Verify;
    var p, c := PlanOf(r, window, base, counter, febId), Corrected(r.events, FirstReference(r.events));
    CorrectionExact(c);
    FragmentsOfAt(p, n, k);
    FragmentParts(p, k);
    MultipleRemainderOf(ElapsedSecs(c));
  }

  lemma MultipleRemainderOf(e: int)
    ensures e * SEC % 1_000_000_000 == 0
  {}

  /** For every fill of ordered times, whatever the number of seconds since the last reference, the length of the poll
      and the window size: nothing is lost exactly when there is a window and the correction, weighted with the time
      that the windows cover beyond one second, is at most the time that they cover beyond the seconds elapsed. */
  lemma CompleteIff(r: Rings, window: Uint32, base: Uint32, counter: int, febId: int)
    requires Fillable(r, window) && 0 <= Elapsed(r) < TWO_TO_32
    ensures
      var p := PlanOf(r, window, base, counter, febId);
      var covered := p.Count() * window;
      Complete(p) <==> p.Count() > 0 && p.correction * (covered - SEC) <= (covered - Elapsed(r) * SEC) * SEC
  {
    var p := PlanOf(r, window, base, counter, febId);
    PlanFacts(r, window, base, counter, febId);
    hide PlanOf, Fillable, Elapsed, PollSecs, Complete, Corrected, Plan.CountFrom;
    CompleteIffReferenceWithin(p);
    ScaledBeyond(Elapsed(r), p.correction, p.Count() * window);
  }

  lemma ScaledBeyond(e: int, t: int, covered: int)
    ensures (e * SEC - t) * SEC <= covered * (SEC - t) <==> t * (covered - SEC) <= (covered - e * SEC) * SEC
  {
    assert covered * (SEC - t) == covered * SEC - covered * t;
    assert t * (covered - SEC) == covered * t - t * SEC;
  }

  /** The time covered reaches the last second, and is more than that only by less than a window. */
  lemma Covered(r: Rings, window: Uint32, base: Uint32, counter: int, febId: int)
    requires Fillable(r, window) && 0 <= Elapsed(r) < TWO_TO_32
    ensures
      var p := PlanOf(r, window, base, counter, febId);
      var span := p.secondSec - p.firstSec;
      && span == (if PollSecs(r) == ToUint32(Elapsed(r) - 1) then PollSecs(r) + 1 else PollSecs(r))
      && p.Count() == WindowCount(span, window)
      && (span <= 0 ==> p.Count() == 0)
      && (span > 0 ==> p.Count() > 0 && span * SEC <= p.Count() * window < span * SEC + window)
      && (span > 0 && span * SEC % window == 0 ==> p.Count() * window == span * SEC)
  {
    var p := PlanOf(r, window, base, counter, febId);
    PlanFacts(r, window, base, counter, febId);
    hide PlanOf, Fillable, Elapsed, PollSecs, Plan.CountFrom;
    ShortCount(p);
    var span := p.secondSec - p.firstSec;
    if span > 0 {
      LastWindowEnd(span, window);
      CountGuard(span, window, 0);
    }
  }

  /** One second after the previous reference, nothing is lost. */
  lemma CompleteAfterOneSecond(r: Rings, window: Uint32, base: Uint32, counter: int, febId: int)
    requires Fillable(r, window) && Elapsed(r) == 1 && PollSecs(r) >= 0
    ensures Complete(PlanOf(r, window, base, counter, febId))
  {
    var p := PlanOf(r, window, base, counter, febId);
    PlanFacts(r, window, base, counter, febId);
    Covered(r, window, base, counter, febId);
    CompleteIff(r, window, base, counter, febId);
    hide PlanOf, Fillable, Elapsed, PollSecs, Complete, Plan.CountFrom;
    MulMonotone(p.correction, SEC, p.Count() * window - SEC);
  }

  /** Less than half a second after it, nothing is lost exactly when the poll crossed a second; otherwise there is no
      window, and everything is erased without a fragment. */
  lemma CompleteWithinHalfSecondIff(r: Rings, window: Uint32, base: Uint32, counter: int, febId: int)
    requires Fillable(r, window) && Elapsed(r) == 0 && Corrected(r.events, FirstReference(r.events)) >= 0
    ensures Complete(PlanOf(r, window, base, counter, febId)) <==> PollSecs(r) > 0
  {
    var p := PlanOf(r, window, base, counter, febId);
    hide PlanOf, Fillable, Elapsed, PollSecs, Complete, Plan.CountFrom, Plan.Count, WindowCount, ToUint32, Corrected,
         FirstReference, NonDecreasing, Plan.Short, Plan.Valid;
    ElapsedOf(r);
    PlanFacts(r, window, base, counter, febId);
    Covered(r, window, base, counter, febId);
    CompleteIff(r, window, base, counter, febId);
    MinusOneWord();
    NegativeCorrection(p.correction, Elapsed(r), p.Count() * window, p.Count());
  }

  lemma ElapsedOf(r: Rings)
    requires r.Aligned() && FirstReference(r.events) < |r.events| && Elapsed(r) == 0
    requires Corrected(r.events, FirstReference(r.events)) >= 0
    ensures Elapsed(r) * SEC - Corrected(r.events, FirstReference(r.events)) <= 0
  {
    hide Corrected, FirstReference;
  }

  lemma MinusOneWord()
    ensures ToUint32(-1) == TWO_TO_32 - 1
  {}

  lemma NegativeCorrection(t: int, elapsed: int, covered: int, count: int)
    requires t <= 0 && elapsed == 0 && (count > 0 ==> covered >= SEC)
    ensures count > 0 ==> t * (covered - SEC) <= (covered - elapsed * SEC) * SEC
  {
    if count > 0 {
      MulMonotone(t, 0, covered - SEC);
    }
  }

  /** When the windows cover exactly the seconds elapsed, and these are several, nothing is lost exactly when the
      board's clock did not run slow: the scale ignores the number of seconds. */
  lemma CompleteAfterManySecondsIff(r: Rings, window: Uint32, base: Uint32, counter: int, febId: int)
    requires Fillable(r, window) && 2 <= Elapsed(r) < TWO_TO_32 && PollSecs(r) == Elapsed(r) - 1
    requires Elapsed(r) * SEC % window == 0
    ensures
      var p := PlanOf(r, window, base, counter, febId);
      Complete(p) <==> p.correction <= 0
  {
    var p := PlanOf(r, window, base, counter, febId);
    PlanFacts(r, window, base, counter, febId);
    Covered(r, window, base, counter, febId);
    CompleteIff(r, window, base, counter, febId);
    hide PlanOf, Fillable, Elapsed, PollSecs, Complete, Plan.CountFrom, WindowCount;
    var covered := p.Count() * window;
    SmallWord(Elapsed(r) - 1);
    assert covered == Elapsed(r) * SEC;
    SignOfProduct(p.correction, covered - SEC);
  }

  lemma SmallWord(x: int)
    requires 0 <= x < TWO_TO_32
    ensures ToUint32(x) == x
  {}

  lemma SignOfProduct(t: int, x: int)
    requires x > 0
    ensures t * x <= 0 <==> t <= 0
  {
    if t > 0 {
      MulMonotone(1, t, x);
    } else {
      MulMonotone(t, 0, x);
    }
  }

  function SampleEvent(time: Uint32, flags: Uint16): Event {
    Event(0, flags, 0, 0, time, 0, seq(32, _ => 0))
  }

  /** Two seconds of a clock that runs one nanosecond slow: one wraparound, then the reference pulse. */
  function SlowClockRings(): Rings {
    var span := (TimeVal(100, 0), TimeVal(101, 0));
    Rings([SampleEvent(0x4000_0000, 1), SampleEvent(5, 0), SampleEvent(926_258_175, 5)],
          [span, span, span], [0, 0, 0])
  }

  lemma SlowClockTimes()
    ensures
      var events := SlowClockRings().events;
      && FirstReference(events) == 2 && WellTimed(events, 1_000_000_000)
      && Corrected(events, 2) == 1_999_999_999
  {
    var events := SlowClockRings().events;
    FirstReferenceUnique(events, 2);
    assert Wraparounds(events, 0) == 0;
    assert Wraparounds(events, 1) == 1;
    assert Wraparounds(events, 2) == 1;
  }

  /** So well-timed input can lose its reference pulse: it is erased without being in any fragment. */
  lemma ReferenceCanBeLost()
    ensures
      var r := SlowClockRings();
      && Fillable(r, SEC) && WellTimed(r.events, 1_000_000_000)
      && !Complete(PlanOf(r, SEC, 0, 0, 0))
  {
    var r := SlowClockRings();
    SlowClockTimes();
    UnwrapWholePrefix(r.events, 1_000_000_000);
    CompleteAfterManySecondsIff(r, SEC, 0, 0, 0);
    PlanFacts(r, SEC, 0, 0, 0);
  }

  /** Fragment `k` announces exactly the window [k * window, (k + 1) * window] after the first second, is numbered by
      the milliseconds of its begin since the shared base, and abuts the next one. */
  lemma FragmentWindow(p: Plan, n: nat, k: nat)
    requires p.Short() && k < n
    ensures k * p.window >= 0 && (k + 1) * p.window >= 0
    ensures
      var frags := FragmentsOf(p, n);
      var meta := frags[k].meta;
      && meta.begin == ClockAt(p.firstSec, k * p.window)
      && meta.end == ClockAt(p.firstSec, (k + 1) * p.window)
      && WindowInOrder(meta.begin, meta.end)
      && meta.seqId == ToUint32(Millis(p.firstSec, p.base, k * p.window))
      && (k + 1 < n ==> frags[k + 1].meta.begin == meta.end)
  {
    hide Plan.FragmentAt;
    FragmentsOfAt(p, n, k);
    FragmentParts(p, k);
    WindowExact(p.firstSec, p.window, k);
    SequenceIdIsMillis(p.firstSec, p.base, k * p.window);
    if k + 1 < n {
      FragmentsOfAt(p, n, k + 1);
      FragmentParts(p, k + 1);
      WindowsAbut(p.firstSec, p.window, k);
    }
  }

  lemma {:induction false} StaysOpen(p: Plan, k: nat, n: nat)
    requires p.Valid() && k <= n && p.IsOpen(n)
    ensures p.IsOpen(k)
    decreases n - k
  {
    if k < n {
      StaysOpen(p, k + 1, n);
      EndMoves(p.firstSec, p.window, k);
    }
  }

  /** A fill is refused exactly when, before the end of the poll, adding the window size to the begin of a window
      wraps. */
  lemma ThrowsIff(p: Plan)
    requires p.Valid()
    ensures p.Throws() <==> exists k: nat :: p.IsOpen(k) && p.Begin(k).ns + p.window >= TWO_TO_32
  {
    var n := p.Count();
    WindowInOrderIff(p.firstSec, p.window, n);
    hide Plan.Slack, WindowBegin, WindowEnd;
    forall k: nat | p.IsOpen(k) && p.Begin(k).ns + p.window >= TWO_TO_32 ensures p.Throws() {
      WindowInOrderIff(p.firstSec, p.window, k);
      StaysOpen(p, n, k);
    }
  }

  /** Window sizes that the configuration accepts and no addition wraps. */
  predicate NoRefusal(window: Uint32) {
    MS <= window <= TWO_TO_32 - SEC
  }

  /** With windows of up to 2^32 - 10^9 nanoseconds no fill is refused. */
  lemma NeverThrows(p: Plan)
    requires p.Valid() && NoRefusal(p.window)
    ensures !p.Throws()
  {
    var n := p.Count();
    BeginCarried(p.firstSec, p.window, n);
    WindowInOrderIff(p.firstSec, p.window, n);
    hide Plan.Slack, WindowBegin, WindowEnd;
  }
}
