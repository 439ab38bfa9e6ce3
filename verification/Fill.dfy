/** Building fragments: everything up to the next reference pulse is scaled to the elapsed time, laid out in
    windows, and erased from the rings. */
module Fill {
  import opened Words
  import opened Events
  import opened FebBuffer
  import opened Unwrap
  import opened Windows
  import opened SequenceIds

  /** The four counters of the metadata. */
  datatype Tally = Tally(missed: nat, overwritten: nat, dropped: nat, nEvents: nat)
  {
    function Plus(other: Tally): Tally {
      Tally(missed + other.missed, overwritten + other.overwritten, dropped + other.dropped, nEvents + other.nEvents)
    }
  }

  const NoEvents := Tally(0, 0, 0, 0)

  datatype Metadata = Metadata(begin: Clock, end: Clock, correction: int, seqId: int, febId: int, tally: Tally)

  datatype Fragment = Fragment(meta: Metadata, payload: seq<Event>)
  {
    /** `Verify`: the announced number of events is the number carried. */
    predicate Verify() {
      meta.tally.nEvents == |payload|
    }
  }

  /** Events lost in the board's FPGA according to the events of a payload. */
  function Missed(events: seq<Event>): nat {
    if events == [] then 0 else Missed(events[..|events| - 1]) + events[|events| - 1].lostFpga
  }

  /** Growth of the board's overwrite counter along the events, starting from its last known value; a smaller value
      counts as a restart of the counter. */
  function Overwritten(counter: int, events: seq<Event>): nat {
    if events == [] then 0
    else
      var n := |events| - 1;
      Overwritten(counter, events[..n]) + Growth(CounterAfter(counter, events[..n]), events[n].lostCpu)
  }

  function Growth(before: int, after: int): nat {
    if after > before then after - before else 0
  }

  function CounterAfter(counter: int, events: seq<Event>): int {
    if events == [] then counter else events[|events| - 1].lostCpu
  }

  /** What the events `from`..`to` of a ring count for. */
  function TallyOf(events: seq<Event>, dropped: seq<nat>, counter: int, from: nat, to: nat): Tally
    requires from <= to <= |events| == |dropped|
  {
    Tally(Missed(events[from..to]), Overwritten(CounterAfter(counter, events[..from]), events[from..to]),
          Sum(dropped[from..to]), to - from)
  }

  /** First event whose scaled time lies beyond `limit`. */
  function FirstBeyond(corrected: seq<int>, limit: int, from: nat): (j: nat)
    requires from <= |corrected|
    ensures from <= j <= |corrected|
    ensures forall i | from <= i < j :: corrected[i] * SEC <= limit
    ensures j < |corrected| ==> corrected[j] * SEC > limit
    decreases |corrected| - from
  {
    if from < |corrected| && corrected[from] * SEC <= limit then FirstBeyond(corrected, limit, from + 1) else from
  }

  /** Everything that determines one fill: the events up to the reference with their corrected times and refused
      counts, the correction, the span in seconds and the state shared with earlier fills. An event at corrected
      time `c` has the scaled time c * SEC / Scale(). */
  datatype Plan = Plan(events: seq<Event>, corrected: seq<int>, dropped: seq<nat>, correction: int,
                       firstSec: int, secondSec: int, window: Uint32, base: Uint32, counter: int, febId: int)
  {
    ghost predicate Valid() {
      && |events| == |corrected| == |dropped|
      && window > 0
      && correction < SEC
    }

    /** The window size keeps windows in place. */
    ghost predicate Short() {
      Valid() && MS <= window <= SEC
    }

    function Scale(): int {
      SEC - correction
    }

    /** Scaled time of event `i` is at most `t`. */
    predicate Within(i: nat, t: int)
      requires i < |corrected|
    {
      corrected[i] * SEC <= t * Scale()
    }

    /** The loop guard at window `k`, before its carry. */
    predicate IsOpen(k: nat) {
      WindowEnd(firstSec, window, k).s < secondSec
    }

    /** Otherwise the metadata of window `k` is refused with an exception. */
    predicate IsInOrder(k: nat) {
      WindowInOrder(Begin(k), End(k))
    }

    /** How far the end of window `k` is from the next second. */
    function Slack(k: nat): nat {
      var ns := WindowEnd(firstSec, window, k).ns;
      if !IsInOrder(k) then 0 else if ns < SEC then 1 + SEC - ns else 1
    }

    /** Window `k` and those after it until the loop ends. */
    function CountFrom(k: nat): (n: nat)
      requires Valid()
      ensures n >= k && (forall i | k <= i < n :: IsOpen(i) && IsInOrder(i)) && !(IsOpen(n) && IsInOrder(n))
      decreases secondSec - WindowEnd(firstSec, window, k).s, Slack(k)
    {
      EndMoves(firstSec, window, k);
      if IsOpen(k) && IsInOrder(k) then CountFrom(k + 1) else k
    }

    /** Number of fragments built. */
    function Count(): nat
      requires Valid()
    {
      CountFrom(0)
    }

    /** The loop ends with the exception. */
    predicate Throws()
      requires Valid()
    {
      IsOpen(Count())
    }

    /** End of window `k` in nanoseconds after the first second. */
    function Limit(k: nat): int {
      Position(End(k), firstSec)
    }

    /** Where the payload of fragment `k` begins: each scan resumes where the previous one stopped. */
    function CutAt(k: nat): (i: nat)
      ensures i <= |corrected| && (k == 0 ==> i == 0)
    {
      if k == 0 then 0 else FirstBeyond(corrected, Limit(k - 1) * Scale(), CutAt(k - 1))
    }

    function Begin(k: nat): Clock {
      Carry(WindowBegin(firstSec, window, k))
    }

    function End(k: nat): Clock {
      Carry(WindowEnd(firstSec, window, k))
    }

    function TallyBetween(from: nat, to: nat): Tally
      requires from <= to <= |events| == |dropped|
    {
      TallyOf(events, dropped, counter, from, to)
    }

    function MetaAt(k: nat, tally: Tally): Metadata {
      Metadata(Begin(k), End(k), correction, SequenceId(Begin(k), base), febId, tally)
    }

    function FragmentAt(k: nat): Fragment
      requires Valid()
    {
      var from, to := CutAt(k), CutAt(k + 1);
      Fragment(MetaAt(k, TallyBetween(from, to)), events[from..to])
    }
  }

  lemma {:induction false} FirstBeyondResumes(corrected: seq<int>, limit: int, from: nat, mid: nat)
    requires from <= mid <= |corrected|
    requires forall i | from <= i < mid :: corrected[i] * SEC <= limit
    ensures FirstBeyond(corrected, limit, mid) == FirstBeyond(corrected, limit, from)
    decreases mid - from
  {
    if from < mid {
      FirstBeyondResumes(corrected, limit, from + 1, mid);
    }
  }

  /** Windows of at most a second are where they should be. */
  lemma ShortWindow(p: Plan, k: nat)
    requires p.Short()
    ensures p.IsInOrder(k) && p.Limit(k) == (k + 1) * p.window
    ensures p.IsOpen(k) <==> k < WindowCount(p.secondSec - p.firstSec, p.window)
  {
    GuardAt(p, k);
    WindowExact(p.firstSec, p.window, k);
    PositionOfClockAt(p.firstSec, (k + 1) * p.window);
  }

  /** Then the loop makes as many windows as the span needs, and does not throw. */
  lemma ShortCount(p: Plan)
    requires p.Short()
    ensures p.Count() == WindowCount(p.secondSec - p.firstSec, p.window) && !p.Throws()
  {
    var n, m := p.Count(), WindowCount(p.secondSec - p.firstSec, p.window);
    ShortWindow(p, n);
    if m < n {
      ShortWindow(p, m);
    }
  }

  /** The successive scans find, for every window, the first of all events that lies beyond its end. */
  lemma {:induction false} CutIsFirstBeyond(p: Plan, k: nat)
    requires p.Short() && k > 0
    ensures p.CutAt(k) == FirstBeyond(p.corrected, k * p.window * p.Scale(), 0)
  {
    ShortWindow(p, k - 1);
    if k > 1 {
      CutIsFirstBeyond(p, k - 1);
      var limit, next := (k - 1) * p.window * p.Scale(), k * p.window * p.Scale();
      assert k * p.window == (k - 1) * p.window + p.window;
      MulMonotone((k - 1) * p.window, k * p.window, p.Scale());
      FirstBeyondResumes(p.corrected, next, 0, p.CutAt(k - 1));
    }
  }

  /** The second before which the first window begins: the start of the poll, or one second earlier if the poll
      spans one second less than the clock counted. Both sides of the comparison are as wide as in the original. */
  function FirstSecond(span: Span, elapsed: Uint32): Uint32 {
    var first := ToUint32(span.0.sec);
    if span.1.sec - span.0.sec == ToUint32(elapsed - 1) then ToUint32(first - 1) else first
  }

  function PlanOf(r: Rings, window: Uint32, base: Uint32, counter: int, febId: int): (p: Plan)
    requires r.Aligned() && FirstReference(r.events) < |r.events|
    ensures p.window == window && (window > 0 ==> p.Valid()) && (MS <= window <= SEC ==> p.Short())
  {
    var g := FirstReference(r.events);
    var c := Corrected(r.events, g);
    var first := FirstSecond(r.spans[g], ToUint32(ElapsedSecs(c)));
    CorrectionExact(c);
    Plan(r.events[..g + 1], CorrectedTimes(r.events, g + 1), r.dropped[..g + 1], TimeCorrection(c),
         first, r.spans[g].1.sec, window, SharedBase(base, first), counter, febId)
  }

  /** A fill does something when there are at least three events, or the buffer is being cleared, and there is a
      reference pulse among them. */
  predicate CanFill(events: seq<Event>, clearBuffer: bool) {
    (clearBuffer || |events| >= 3) && FirstReference(events) < |events|
  }

  /** By the raw flags: bit 2 marks a reference pulse. */
  lemma CanFillIff(events: seq<Event>, clearBuffer: bool)
    ensures CanFill(events, clearBuffer)
        <==> (clearBuffer || |events| > 2) && exists i :: 0 <= i < |events| && events[i].flags / 4 % 2 == 1
  {
    if i :| 0 <= i < |events| && events[i].flags / 4 % 2 == 1 {
      assert events[i].IsReference();
    }
  }

  lemma FragmentParts(p: Plan, k: nat)
    requires p.Valid()
    ensures p.CutAt(k) <= p.CutAt(k + 1)
    ensures
      var f, from, to := p.FragmentAt(k), p.CutAt(k), p.CutAt(k + 1);
      && f.payload == p.events[from..to]
      && f.meta.tally == p.TallyBetween(from, to)
      && f.meta.begin == p.Begin(k) && f.meta.end == p.End(k)
      && f.meta.seqId == SequenceId(p.Begin(k), p.base)
      && f.meta.correction == p.correction && f.meta.febId == p.febId
      && f.Verify()
  {}

  /** The fragments of the first `n` windows. */
  function FragmentsOf(p: Plan, n: nat): (frags: seq<Fragment>)
    requires p.Valid()
    ensures |frags| == n
  {
    if n == 0 then [] else FragmentsOf(p, n - 1) + [p.FragmentAt(n - 1)]
  }

  lemma {:induction false} FragmentsOfAt(p: Plan, n: nat, k: nat)
    requires p.Valid() && k < n
    ensures FragmentsOf(p, n)[k] == p.FragmentAt(k)
  {
    hide Plan.FragmentAt;
    if k < n - 1 {
      FragmentsOfAt(p, n - 1, k);
    }
  }

  class Generator {
    const window: Uint32
    var seqIdMinimumSec: Uint32

    /** The configured window size; the original refuses sizes below a millisecond. */
    constructor (window: Uint32)
      requires MS <= window
      ensures this.window == window && seqIdMinimumSec == 0
    {
      this.window := window;
      seqIdMinimumSec := 0;
    }

    /** Counts the events of one window, stopping at the first event beyond its end. */
    method CollectWindow(feb: FebBuffer, corrected: array<int>, gps: nat, from: nat, limit: int, ghost counter: int)
      returns (i: nat, tally: Tally)
      requires from <= gps + 1 <= |feb.buffer| == |feb.droppedbuffer| <= corrected.Length
      requires feb.overwrittenCounter == CounterAfter(counter, feb.buffer[..from])
      modifies feb`overwrittenCounter
      ensures i == FirstBeyond(corrected[..gps + 1], limit, from)
      ensures tally == TallyOf(feb.buffer, feb.droppedbuffer, counter, from, i)
      ensures feb.overwrittenCounter == CounterAfter(counter, feb.buffer[..i])
    {
      ghost var c := corrected[..gps + 1];
      i, tally := from, NoEvents;
      while i < gps + 1
        invariant from <= i <= gps + 1
        invariant FirstBeyond(c, limit, i) == FirstBeyond(c, limit, from)
        invariant tally == TallyOf(feb.buffer, feb.droppedbuffer, counter, from, i)
        invariant feb.overwrittenCounter == CounterAfter(counter, feb.buffer[..i])
      {
        var event := feb.buffer[i];
        if corrected[i] * SEC > limit {
          break;
        }
        CountEvent(feb.buffer, feb.droppedbuffer, counter, from, i);
        var grown := if event.lostCpu > feb.overwrittenCounter then event.lostCpu - feb.overwrittenCounter else 0;
        tally := tally.Plus(Tally(event.lostFpga, grown, feb.droppedbuffer[i], 1));
        feb.overwrittenCounter := event.lostCpu;
        i := i + 1;
      }
    }

    /** The body of the loop over windows once the carries are done: one fragment. */
    method BuildFragment(feb: FebBuffer, corrected: array<int>, gps: nat, from: nat, begin: Clock, end: Clock,
                         firstSec: int, correction: int, ghost p: Plan, ghost k: nat)
      returns (i: nat, frag: Fragment)
      requires p.Valid() && |p.events| == gps + 1 <= |feb.buffer| == |feb.droppedbuffer| <= corrected.Length
      requires p.events == feb.buffer[..gps + 1] && p.dropped == feb.droppedbuffer[..gps + 1]
      requires p.corrected == corrected[..gps + 1] && p.correction == correction
      requires from == p.CutAt(k) && feb.overwrittenCounter == CounterAfter(p.counter, p.events[..from])
      requires firstSec == p.firstSec && begin == p.Begin(k) && end == p.End(k)
      requires p.base == seqIdMinimumSec && p.febId == feb.id
      modifies feb`overwrittenCounter
      ensures i == p.CutAt(k + 1) && frag == p.FragmentAt(k)
      ensures feb.overwrittenCounter == CounterAfter(p.counter, p.events[..i])
    {
      var limit := ((end.s - firstSec) * SEC + end.ns) * (SEC - correction);
      var tally;
      SliceOfPrefix(feb.buffer, gps + 1, 0, from);
      i, tally := CollectWindow(feb, corrected, gps, from, limit, p.counter);
      TallyOfPrefix(feb.buffer, feb.droppedbuffer, p.counter, gps + 1, from, i);
      var meta := Metadata(begin, end, correction, SequenceId(begin, seqIdMinimumSec), feb.id, tally);
      frag := Fragment(meta, feb.buffer[from..i]);
    }

    /** The correction for the clock and the second before the first window, from the corrected time of the
        reference and the poll it arrived in. */
    method Calibrate(reference: int, span: Span) returns (correction: int, first: int)
      requires reference >= 0
      ensures correction == TimeCorrection(reference)
      ensures first == FirstSecond(span, ToUint32(ElapsedSecs(reference)))
    {
      var elapsed: int := ToUint32(reference / SEC);
      if reference % SEC > 500_000_000 {
        ToUint32Plus(reference / SEC, 1);
        elapsed := ToUint32(elapsed + 1);
      }
      assert elapsed == ToUint32(ElapsedSecs(reference));
      correction := ToInt32(ToInt32(elapsed * SEC) - ToInt32(reference));
      first := ToUint32(span.0.sec);
      if span.1.sec - span.0.sec == ToUint32(elapsed - 1) {
        first := ToUint32(first - 1);
      }
    }

    /** The loop over windows: while the end of the window, before its carry, is in an earlier second than the end of
        the poll. A window that ends before it begins is refused. */
    method EmitWindows(feb: FebBuffer, corrected: array<int>, gps: nat, first: int, last: int, correction: int,
                       ghost p: Plan)
      returns (threw: bool, frags: seq<Fragment>)
      requires p.Valid() && |p.events| == gps + 1 <= |feb.buffer| == |feb.droppedbuffer| <= corrected.Length
      requires p.events == feb.buffer[..gps + 1] && p.dropped == feb.droppedbuffer[..gps + 1]
      requires p.corrected == corrected[..gps + 1] && p.correction == correction
      requires p.firstSec == first && p.secondSec == last && p.window == window
      requires p.base == seqIdMinimumSec && p.febId == feb.id && p.counter == feb.overwrittenCounter
      modifies feb`overwrittenCounter
      ensures frags == FragmentsOf(p, p.Count()) && (threw <==> p.Throws())
      ensures feb.overwrittenCounter == CounterAfter(p.counter, p.events[..p.CutAt(p.Count())])
    {
      hide Plan.FragmentAt, SequenceId, Plan.Slack, WindowInOrder;
      frags := [];
      var begin, end := Clock(first, 0), Clock(first, window);
      var i := 0;
      ghost var k := 0;
      while end.s < last
        invariant p.CountFrom(k) == p.Count() && i == p.CutAt(k)
        invariant begin == WindowBegin(first, window, k) && end == WindowEnd(first, window, k)
        invariant frags == FragmentsOf(p, k)
        invariant feb.overwrittenCounter == CounterAfter(p.counter, p.events[..i])
        decreases p.Count() - k
      {
        end, begin := Carry(end), Carry(begin);
        if !WindowInOrder(begin, end) {
          return true, frags;
        }
        var frag;
        i, frag := BuildFragment(feb, corrected, gps, i, begin, end, first, correction, p, k);
        frags := frags + [frag];
        begin := Advance(begin, window);
        end := Advance(end, window);
        k := k + 1;
      }
      threw := false;
    }

    /** Emits the fragments of the windows up to the next reference pulse and erases everything up to it. When a window
        is refused, the exception leaves the rings as they are. */
    method FillFragment(feb: FebBuffer, clearBuffer: bool) returns (ok: bool, threw: bool, frags: seq<Fragment>)
      requires feb.Valid() && window > 0
      modifies this`seqIdMinimumSec, feb`buffer, feb`timebuffer, feb`droppedbuffer, feb`overwrittenCounter
      ensures feb.Valid()
      ensures ok || threw <==> CanFill(old(feb.buffer), clearBuffer)
      ensures !ok && !threw ==> frags == [] && unchanged(feb) && unchanged(this)
      ensures ok || threw ==>
        var g := FirstReference(old(feb.buffer));
        var p := PlanOf(old(feb.View()), window, old(seqIdMinimumSec), old(feb.overwrittenCounter), feb.id);
        && (threw <==> p.Throws()) && ok == !threw
        && feb.View() == (if threw then old(feb.View()) else old(feb.View()).Drop(g + 1))
        && frags == FragmentsOf(p, p.Count())
        && feb.overwrittenCounter == CounterAfter(p.counter, p.events[..p.CutAt(p.Count())])
        && seqIdMinimumSec == p.base
    {
      hide Plan.CountFrom, Plan.CutAt, FragmentsOf;
      if !clearBuffer && |feb.buffer| < 3 {
        return false, false, [];
      }
      var corrected := new int[|feb.buffer|];
      var gps := FindReference(feb.buffer, corrected);
      if gps == |feb.buffer| {
        return false, false, [];
      }
      var span := feb.timebuffer[gps];
      var correction, first := Calibrate(corrected[gps], span);
      ghost var p := PlanOf(feb.View(), window, seqIdMinimumSec, feb.overwrittenCounter, feb.id);
      assert corrected[..gps + 1] == p.corrected;
      if seqIdMinimumSec == 0 {
        seqIdMinimumSec := ToUint32(first - 10);
      }
      threw, frags := EmitWindows(feb, corrected, gps, first, span.1.sec, correction, p);
      if threw {
        return false, true, frags;
      }
      var _ := feb.Erase(gps + 1);
      ok := true;
    }
  }

  lemma SliceOfPrefix<T>(s: seq<T>, n: nat, from: nat, to: nat)
    requires from <= to <= n <= |s|
    ensures s[..n][from..to] == s[from..to]
  {}

  lemma TallyOfPrefix(events: seq<Event>, dropped: seq<nat>, counter: int, n: nat, from: nat, to: nat)
    requires from <= to <= n <= |events| == |dropped|
    ensures TallyOf(events[..n], dropped[..n], counter, from, to) == TallyOf(events, dropped, counter, from, to)
    ensures events[..n][from..to] == events[from..to] && events[..n][..to] == events[..to]
  {
    SliceOfPrefix(events, n, from, to);
    SliceOfPrefix(events, n, 0, from);
    SliceOfPrefix(dropped, n, from, to);
  }

  /** The loop guard at window `k`. */
  lemma GuardAt(p: Plan, k: nat)
    requires p.Short()
    ensures p.IsOpen(k) <==> k < WindowCount(p.secondSec - p.firstSec, p.window)
  {
    WindowExact(p.firstSec, p.window, k);
    CountGuard(p.secondSec - p.firstSec, p.window, k);
    WholeSecondsBelow(k * p.window, p.secondSec - p.firstSec);
  }

  lemma WholeSecondsBelow(t: nat, span: int)
    ensures t / SEC < span <==> t < span * SEC
  {}

  lemma CountEvent(events: seq<Event>, dropped: seq<nat>, counter: int, from: nat, i: nat)
    requires from <= i < |events| == |dropped|
    ensures
      var grown := Growth(CounterAfter(counter, events[..i]), events[i].lostCpu);
      TallyOf(events, dropped, counter, from, i + 1)
        == TallyOf(events, dropped, counter, from, i).Plus(Tally(events[i].lostFpga, grown, dropped[i], 1))
    ensures CounterAfter(counter, events[..i + 1]) == events[i].lostCpu
  {
    var before, after := events[from..i], events[from..i + 1];
    assert after[..|after| - 1] == before;
    assert dropped[from..i + 1] == dropped[from..i] + [dropped[i]];
    SumAppend(dropped[from..i], [dropped[i]]);
    assert CounterAfter(CounterAfter(counter, events[..from]), before) == CounterAfter(counter, events[..i]);
  }
}
