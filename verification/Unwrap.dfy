/** From the raw 30-bit clock to time since the last reference pulse: the search for the next reference, the
    counting of wraparounds, and the correction to the nearest whole second. */
module Unwrap {
  import opened Words
  import opened Events
  import opened FebBuffer

  const WRAP: int := 0x4000_0000
  const SEC: int := 1_000_000_000

  /** Index of the first reference event, or the length if there is none. */
  function FirstReference(events: seq<Event>): (g: nat)
    ensures g <= |events|
    ensures forall i | 0 <= i < g :: !events[i].IsReference()
    ensures g < |events| ==> events[g].IsReference()
  {
    if events == [] || events[0].IsReference() then 0 else 1 + FirstReference(events[1..])
  }

  lemma FirstReferenceUnique(events: seq<Event>, g: nat)
    requires g <= |events|
    requires forall i | 0 <= i < g :: !events[i].IsReference()
    requires g < |events| ==> events[g].IsReference()
    ensures g == FirstReference(events)
  {}

  /** The event at `i` is counted as a wraparound of the clock. */
  predicate IsWraparound(events: seq<Event>, i: nat)
    requires i < |events|
  {
    i > 0 && !events[i].IsReference() && events[i].Time() < events[i - 1].Time() && events[i].IsOverflow()
  }

  /** Number of wraparounds counted up to and including event `i`. */
  function Wraparounds(events: seq<Event>, i: nat): nat
    requires i < |events|
  {
    (if i == 0 then 0 else Wraparounds(events, i - 1)) + (if IsWraparound(events, i) then 1 else 0)
  }

  function Corrected(events: seq<Event>, i: nat): int
    requires i < |events|
  {
    events[i].Time() + Wraparounds(events, i) * WRAP
  }

  /** By raw times and flags: 2^30 is added at exactly those events that are no reference, step back and raise the
      overflow flag. */
  lemma CorrectedStep(events: seq<Event>, i: nat)
    requires 0 < i < |events|
    ensures Corrected(events, 0) == events[0].ts0
    ensures Corrected(events, i) - Corrected(events, i - 1) - (events[i].ts0 - events[i - 1].ts0)
         == if events[i].flags / 4 % 2 == 0 && events[i].ts0 < events[i - 1].ts0 && events[i].flags % 2 == 0
            then 0x4000_0000 else 0
  {}

  /** Corrected times of the first `n` events. */
  function CorrectedTimes(events: seq<Event>, n: nat): (c: seq<int>)
    requires n <= |events|
    ensures |c| == n && forall i | 0 <= i < n :: c[i] == Corrected(events, i)
  {
    seq(n, i requires 0 <= i < n => Corrected(events, i))
  }

  /** The search loop: stops at the first reference, leaving the corrected times in scratch storage. */
  method FindReference(events: seq<Event>, corrected: array<int>) returns (gps: nat)
    requires corrected.Length == |events|
    modifies corrected
    ensures gps == FirstReference(events)
    ensures forall i | 0 <= i < |events| && i <= gps :: corrected[i] == Corrected(events, i)
  {
    gps := |events|;
    var wraparounds := 0;
    var lastTime := 0;
    var i := 0;
    while i < |events|
      invariant 0 <= i <= |events| && gps == |events|
      invariant i > 0 ==> wraparounds == Wraparounds(events, i - 1) && lastTime == events[i - 1].Time()
      invariant i == 0 ==> wraparounds == 0 && lastTime == 0
      invariant forall j | 0 <= j < i :: !events[j].IsReference()
      invariant forall j | 0 <= j < i :: corrected[j] == Corrected(events, j)
    {
      var event := events[i];
      if event.IsReference() {
        gps := i;
      } else if event.Time() < lastTime && event.IsOverflow() {
        wraparounds := wraparounds + 1;
      }
      assert wraparounds == Wraparounds(events, i);
      corrected[i] := event.Time() + wraparounds * WRAP;
      lastTime := event.Time();
      if gps != |events| {
        break;
      }
      i := i + 1;
    }
    FirstReferenceUnique(events, gps);
  }

  /** The range of times the driver's decoder produces. */
  ghost predicate DriverTimes(events: seq<Event>) {
    forall e | e in events :: 5 <= e.Time() <= WRAP + 4
  }

  ghost predicate NonDecreasing(c: seq<int>) {
    forall i, j | 0 <= i <= j < |c| :: c[i] <= c[j]
  }

  /** Before the first reference, events that pass the order test get non-decreasing corrected times, strictly
      increasing across every counted wraparound. */
  lemma {:induction false} UnwrapMonotone(events: seq<Event>, maxTimeDiff: int, i: nat, j: nat)
    requires DriverTimes(events) && i <= j < FirstReference(events)
    requires OrderedFrom(events, 1, FirstReference(events), maxTimeDiff)
    ensures Corrected(events, i) <= Corrected(events, j)
    ensures i < j && IsWraparound(events, j) ==> Corrected(events, i) < Corrected(events, j)
  {
    if i < j {
      UnwrapMonotone(events, maxTimeDiff, i, j - 1);
      assert InOrder(events[j - 1], events[j], maxTimeDiff);
      assert events[j - 1] in events && events[j] in events;
    }
  }

  /** A wraparound is never counted at the reference itself, so its corrected time keeps the order exactly when its
      raw time does. */
  lemma UnwrapAtReference(events: seq<Event>)
    requires 0 < FirstReference(events) < |events|
    ensures
      var g := FirstReference(events);
      Corrected(events, g - 1) <= Corrected(events, g) <==> events[g - 1].Time() <= events[g].Time()
  {
    var g := FirstReference(events);
    assert Wraparounds(events, g) == Wraparounds(events, g - 1);
  }

  /** The conditions under which the clock is unwrapped without a step back up to the reference. */
  ghost predicate WellTimed(events: seq<Event>, maxTimeDiff: int) {
    var g := FirstReference(events);
    && g < |events|
    && DriverTimes(events)
    && OrderedFrom(events, 1, g, maxTimeDiff)
    && (g > 0 ==> events[g - 1].Time() <= events[g].Time())
  }

  lemma UnwrapUpToReference(events: seq<Event>, maxTimeDiff: int, i: nat, j: nat)
    requires WellTimed(events, maxTimeDiff) && i <= j <= FirstReference(events)
    ensures Corrected(events, i) <= Corrected(events, j)
  {
    var g := FirstReference(events);
    if j < g {
      UnwrapMonotone(events, maxTimeDiff, i, j);
    } else if i < g {
      UnwrapMonotone(events, maxTimeDiff, i, g - 1);
      UnwrapAtReference(events);
    }
  }

  /** Everything up to and including the reference is in order. */
  lemma UnwrapWholePrefix(events: seq<Event>, maxTimeDiff: int)
    requires WellTimed(events, maxTimeDiff)
    ensures NonDecreasing(CorrectedTimes(events, FirstReference(events) + 1))
  {
    var g := FirstReference(events);
    var c := CorrectedTimes(events, g + 1);
    forall i, j | 0 <= i <= j < |c|
      ensures c[i] <= c[j]
    {
      UnwrapUpToReference(events, maxTimeDiff, i, j);
    }
  }

  /** `clock` is a free-running counter sampled by the first `n` events: they carry its low 30 bits plus the phase
      offset of 5, neighbours are less than one full turn apart, and a turn raises the overflow flag. */
  ghost predicate Samples(events: seq<Event>, clock: seq<int>, n: nat)
    requires n <= |events|
  {
    && n <= |clock|
    && (forall i | 0 <= i < n :: clock[i] >= 0 && events[i].ts0 == clock[i] % WRAP + 5)
    && (forall i | 0 < i < n ::
          && 0 <= clock[i] - clock[i - 1] < WRAP
          && (clock[i] / WRAP > clock[i - 1] / WRAP ==> events[i].flags % 2 == 0))
  }

  /** Unwrapping recovers the counter: corrected times are the true counter values, up to the turns before the
      first event. */
  lemma {:induction false} UnwrapRecoversClock(events: seq<Event>, clock: seq<int>, n: nat, i: nat)
    requires n <= |events| && Samples(events, clock, n) && i < n && i < FirstReference(events)
    ensures Corrected(events, i) == clock[i] + 5 - clock[0] / WRAP * WRAP
  {
    if i > 0 {
      UnwrapRecoversClock(events, clock, n, i - 1);
      OneTurn(clock[i - 1], clock[i]);
    }
  }

  lemma OneTurn(before: int, after: int)
    requires 0 <= before <= after < before + WRAP
    ensures after % WRAP < before % WRAP <==> after / WRAP > before / WRAP
    ensures after / WRAP <= before / WRAP + 1
  {}

  /** At the reference the counter is recovered exactly when it did not turn since the previous event. */
  lemma UnwrapRecoversReference(events: seq<Event>, clock: seq<int>)
    requires
      var g := FirstReference(events);
      0 < g < |events| && Samples(events, clock, g + 1)
    ensures
      var g := FirstReference(events);
      Corrected(events, g) == clock[g] + 5 - clock[0] / WRAP * WRAP <==> clock[g] / WRAP == clock[g - 1] / WRAP
  {
    var g := FirstReference(events);
    UnwrapRecoversClock(events, clock, g + 1, g - 1);
    OneTurn(clock[g - 1], clock[g]);
    assert Wraparounds(events, g) == Wraparounds(events, g - 1);
  }

  /** Whole seconds nearest to a corrected time, halves rounded down. */
  function ElapsedSecs(corrected: int): int {
    corrected / SEC + (if corrected % SEC > 500_000_000 then 1 else 0)
  }

  /** The correction as computed: a difference of two 32-bit integers that may both have wrapped. */
  function TimeCorrection(corrected: int): int {
    ToInt32(ToInt32(ToUint32(ElapsedSecs(corrected)) * SEC) - ToInt32(corrected))
  }

  /** It is the exact signed distance to the nearest second, at most half a second either way. */
  lemma CorrectionExact(corrected: int)
    ensures TimeCorrection(corrected) == ElapsedSecs(corrected) * SEC - corrected
    ensures -500_000_000 <= TimeCorrection(corrected) < 500_000_000
  {
    var e := ElapsedSecs(corrected);
    var q := e / TWO_TO_32;
    assert ToUint32(e) * SEC == e * SEC + (-q * SEC) * TWO_TO_32;
    ToInt32Shift(e * SEC, -q * SEC);
    WrappedDifference(e * SEC, corrected);
  }
}
