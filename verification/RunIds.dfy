/** What the ids of a run are: they count milliseconds from the second in which the run's first window begins. */
module RunIds {
  import opened Words
  import opened FebBuffer
  import opened Unwrap
  import opened Windows
  import opened SequenceIds
  import opened Fill
  import opened FillTheorems
  import opened Drain

  /** 10 000, and one more for each millisecond from second `f` to the begin of a window; modulo 2^32. */
  function IdSince(f: int, begin: Clock): int {
    (10_000 + (begin.s - f) * 1000 + begin.ns / 1_000_000) % 0x1_0000_0000
  }

  ghost predicate AllSince(frags: seq<Fragment>, f: int) {
    forall i | 0 <= i < |frags| :: frags[i].meta.seqId == IdSince(f, frags[i].meta.begin)
  }

  lemma TenSecondsBefore(f: int, begin: Clock)
    ensures SequenceId(begin, ToUint32(f - 10)) == IdSince(f, begin)
  {
    var q := (f - 10) / TWO_TO_32;
    assert ToUint32(f - 10) == f - 10 - q * TWO_TO_32;
    ToUint32Absorbs(begin.s - ToUint32(f - 10), 1000, begin.ns / MS);
    ToUint32Shift((begin.s - f + 10) * 1000 + begin.ns / MS, q * 1000);
    assert (begin.s - ToUint32(f - 10)) * 1000 + begin.ns / MS
        == (begin.s - f + 10) * 1000 + begin.ns / MS + q * 1000 * TWO_TO_32;
  }

  /** The second in which the first window of a fill begins: that in which the reference's poll began, or one
      earlier when the poll spans one second less than the clock counted. */
  lemma FirstWindowSecond(r: Rings, window: Uint32, base: Uint32, counter: int, febId: int)
    requires r.Aligned() && FirstReference(r.events) < |r.events|
    requires 0 < r.spans[FirstReference(r.events)].0.sec < TWO_TO_32 && 1 <= Elapsed(r) < TWO_TO_32
    ensures
      var p, span := PlanOf(r, window, base, counter, febId), r.spans[FirstReference(r.events)];
      && p.firstSec == (if span.1.sec - span.0.sec == Elapsed(r) - 1 then span.0.sec - 1 else span.0.sec)
      && p.secondSec == span.1.sec
  {
    SmallWord(Elapsed(r));
    SmallWord(Elapsed(r) - 1);
    hide ElapsedSecs, Corrected, CorrectedTimes, TimeCorrection;
  }

  /** A fill while the base is not set: window `k` has the id 10 000 and its begin in milliseconds, whatever the first
      second is; the base is set to ten seconds before that. */
  lemma FirstFillIds(r: Rings, window: Uint32, counter: int, febId: int, n: nat, k: nat)
    requires r.Aligned() && FirstReference(r.events) < |r.events| && 0 < window <= SEC && k < n
    ensures k * window >= 0
    ensures
      var p := PlanOf(r, window, 0, counter, febId);
      var frags := FragmentsOf(p, n);
      var id := 10_000 + k * window / 1_000_000;
      && frags[0].meta.seqId == 10_000 && frags[k].meta.seqId == id % 0x1_0000_0000
      && (id < 0x1_0000_0000 ==> frags[k].meta.seqId == id)
      && frags[0].meta.begin == Clock(p.firstSec, 0)
      && (p.firstSec >= 10 ==> p.base == p.firstSec - 10)
      && (p.base <= p.firstSec <==> p.firstSec >= 10)
  {
    hide PlanOf, FragmentsOf, IdSince, Plan.Valid;
    BaseUnset(r, window, counter, febId);
    var p := PlanOf(r, window, 0, counter, febId);
    PlanIds(p, n, 0);
    PlanIds(p, n, k);
    TenBefore(p.firstSec);
  }

  /** The base counts as not set again only when the first window begins in second 10. */
  lemma NotUnset(f: Uint32)
    ensures ToUint32(f - 10) == 0 <==> f == 10
  {}

  lemma TenBefore(f: Uint32)
    ensures f >= 10 ==> ToUint32(f - 10) == f - 10
    ensures ToUint32(f - 10) <= f <==> f >= 10
  {}

  lemma PlanIds(p: Plan, n: nat, k: nat)
    requires p.Valid() && p.window <= SEC && k < n && p.base == ToUint32(p.firstSec - 10)
    ensures k * p.window >= 0
    ensures
      var meta := FragmentsOf(p, n)[k].meta;
      meta.begin == ClockAt(p.firstSec, k * p.window)
      && meta.seqId == (10_000 + k * p.window / 1_000_000) % 0x1_0000_0000
  {
    FragmentIdSince(p, n, k);
    BeginExact(p.firstSec, p.window, k);
    MillisInto(p.firstSec, k * p.window);
    hide FragmentsOf, IdSince, WindowBegin;
  }

  lemma BaseUnset(r: Rings, window: Uint32, counter: int, febId: int)
    requires r.Aligned() && FirstReference(r.events) < |r.events|
    ensures
      var p := PlanOf(r, window, 0, counter, febId);
      p.base == ToUint32(p.firstSec - 10) && 0 <= p.firstSec < TWO_TO_32
  {
    hide FirstReference, Corrected, CorrectedTimes, TimeCorrection, ElapsedSecs;
  }

  lemma FragmentIdSince(p: Plan, n: nat, k: nat)
    requires p.Valid() && k < n && p.base == ToUint32(p.firstSec - 10)
    ensures
      var meta := FragmentsOf(p, n)[k].meta;
      meta.begin == Carry(WindowBegin(p.firstSec, p.window, k)) && meta.seqId == IdSince(p.firstSec, meta.begin)
  {
    hide FragmentsOf, SequenceId, IdSince, Plan.FragmentAt, Plan.CutAt, Plan.TallyBetween, Fragment.Verify, Plan.Valid;
    FragmentsOfAt(p, n, k);
    FragmentParts(p, k);
    TenSecondsBefore(p.firstSec, p.Begin(k));
  }

  lemma MillisInto(f: int, t: nat)
    ensures IdSince(f, ClockAt(f, t)) == (10_000 + t / 1_000_000) % 0x1_0000_0000
  {
    assert t / 1_000_000 == t / SEC * 1000 + t % SEC / 1_000_000;
  }

  /** The first board able to fill has its first window begin in second `f`. */
  ghost predicate BeginsAt(boards: seq<Source>, window: Uint32, f: int)
    requires NoRefusal(window) && AllAligned(boards)
  {
    exists b :: 0 <= b < |boards| && FirstAt(boards, window, b, f)
  }

  ghost predicate FirstAt(boards: seq<Source>, window: Uint32, b: nat, f: int)
    requires NoRefusal(window) && AllAligned(boards) && b < |boards|
  {
    && (forall i | 0 <= i < b :: !CanFill(boards[i].rings.events, false)) && CanFill(boards[b].rings.events, false)
    && PlanOf(boards[b].rings, window, 0, boards[b].counter, boards[b].febId).firstSec == f
  }

  lemma {:induction false} BaseOfFirst(boards: seq<Source>, window: Uint32, b: nat, f: int)
    requires NoRefusal(window) && AllAligned(boards) && b < |boards| && FirstAt(boards, window, b, f)
    ensures BaseInForce(boards, window, 0) == ToUint32(f - 10) && 0 <= f < TWO_TO_32
    decreases b
  {
    if b == 0 {
      BaseUnset(boards[0].rings, window, boards[0].counter, boards[0].febId);
      hide PlanOf;
    } else {
      assert forall i | 0 <= i < b - 1 :: boards[1..][i] == boards[i + 1];
      hide PlanOf;
      BaseOfFirst(boards[1..], window, b - 1, f);
    }
  }

  /** All fragments of all boards, in the call that builds the first ones of a run and in all later ones, count from the
      second in which the run's first window begins. */
  lemma RunCounts(boards: seq<Source>, window: Uint32, base: Uint32, f: int)
    requires NoRefusal(window) && AllAligned(boards) && 0 <= f < TWO_TO_32 && f != 10
    requires if base == 0 then BeginsAt(boards, window, f) else base == ToUint32(f - 10)
    ensures
      var outs := DrainEach(boards, window, base);
      AllSince(AllFragments(outs), f) && BaseAfter(outs, base) == ToUint32(f - 10)
  {
    hide FirstAt, DrainEach, AllFragments, AllNumbered, AllSince, BaseInForce, AllAligned, CanFill;
    NotUnset(f);
    if base == 0 {
      var b :| 0 <= b < |boards| && FirstAt(boards, window, b, f);
      BaseOfFirst(boards, window, b, f);
    } else {
      BaseAlready(boards, window, base);
    }
    OneBase(boards, window, base);
    NumberedSince(AllFragments(DrainEach(boards, window, base)), f);
  }

  lemma BaseAlready(boards: seq<Source>, window: Uint32, base: Uint32)
    requires NoRefusal(window) && AllAligned(boards) && base != 0
    ensures BaseInForce(boards, window, base) == base
  {}

  lemma NumberedSince(frags: seq<Fragment>, f: int)
    requires AllNumbered(frags, ToUint32(f - 10))
    ensures AllSince(frags, f)
  {
    forall i | 0 <= i < |frags| ensures frags[i].meta.seqId == IdSince(f, frags[i].meta.begin) {
      TenSecondsBefore(f, frags[i].meta.begin);
    }
    hide SequenceId, IdSince;
  }

  /** So over the first 2^32 - 10 000 milliseconds of a run, a window that begins a millisecond or more after
      another one has a larger id, and the smallest id is 10 000. */
  lemma IdsGrow(f: int, begin: Clock, later: Clock)
    requires begin.ns < SEC && later.ns < SEC && f <= begin.s
    requires (begin.s - f) * 1000 + begin.ns / 1_000_000 < (later.s - f) * 1000 + later.ns / 1_000_000
    requires (later.s - f) * 1000 + later.ns / 1_000_000 < 0x1_0000_0000 - 10_000
    ensures 10_000 <= IdSince(f, begin) < IdSince(f, later)
  {}
}
