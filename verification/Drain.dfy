/** Filling until nothing more can be filled, board after board. */
module Drain {
  import opened Words
  import opened Events
  import opened FebBuffer
  import opened Unwrap
  import opened SequenceIds
  import opened Fill
  import opened FillTheorems

  /** How many entries the inner loop removes from a board's rings. */
  function Drained(events: seq<Event>): (n: nat)
    ensures n <= |events|
    decreases |events|
  {
    if CanFill(events, false) then
      var next := FirstReference(events) + 1;
      next + Drained(events[next..])
    else
      0
  }

  /** How many fills it takes. */
  function Fills(events: seq<Event>): nat
    decreases |events|
  {
    if CanFill(events, false) then 1 + Fills(events[FirstReference(events) + 1..]) else 0
  }

  function References(events: seq<Event>): nat {
    if events == [] then 0 else (if events[0].IsReference() then 1 else 0) + References(events[1..])
  }

  lemma {:induction false} ReferencesAppend(a: seq<Event>, b: seq<Event>)
    ensures References(a + b) == References(a) + References(b)
  {
    if a == [] {
      assert a + b == b;
    } else {
      assert (a + b)[1..] == a[1..] + b;
      ReferencesAppend(a[1..], b);
    }
  }

  lemma {:induction false} NoReferences(events: seq<Event>)
    ensures References(events) == 0 <==> FirstReference(events) == |events|
  {
    if events != [] {
      NoReferences(events[1..]);
    }
  }

  /** One fill takes the first reference and everything before it, and no other reference. */
  lemma {:induction false} OneReferencePerFill(events: seq<Event>)
    requires FirstReference(events) < |events|
    ensures References(events[..FirstReference(events) + 1]) == 1
  {
    var taken := events[..FirstReference(events) + 1];
    if events[0].IsReference() {
      assert taken == [events[0]];
    } else {
      OneReferencePerFill(events[1..]);
      assert taken[1..] == events[1..][..FirstReference(events[1..]) + 1];
    }
  }

  lemma ReferencesInTwoParts(events: seq<Event>, n: nat, m: nat)
    requires n + m <= |events|
    ensures References(events[..n + m]) == References(events[..n]) + References(events[n..][..m])
  {
    ReferencesAppend(events[..n], events[n..][..m]);
    assert events[..n + m] == events[..n] + events[n..][..m];
  }

  /** Draining removes exactly as many references as there are fills. */
  lemma {:induction false} DrainedReferences(events: seq<Event>)
    ensures References(events[..Drained(events)]) == Fills(events)
    decreases |events|
  {
    hide FirstReference, References;
    if CanFill(events, false) {
      var next := FirstReference(events) + 1;
      DrainedReferences(events[next..]);
      OneReferencePerFill(events);
      ReferencesInTwoParts(events, next, Drained(events[next..]));
    } else {
      assert events[..0] == [] && References([]) == 0 by {
        NoReferenceInNothing();
      }
    }
  }

  lemma NoReferenceInNothing()
    ensures References([]) == 0
  {}

  /** It ends right after a reference. */
  lemma {:induction false} DrainedAtReference(events: seq<Event>)
    ensures if Fills(events) > 0 then Drained(events) > 0 && events[Drained(events) - 1].IsReference()
            else Drained(events) == 0
    decreases |events|
  {
    if CanFill(events, false) {
      DrainedAtReference(events[FirstReference(events) + 1..]);
    }
  }

  /** It leaves fewer than three events, or no reference. */
  lemma {:induction false} DrainLeaves(events: seq<Event>)
    ensures !CanFill(events[Drained(events)..], false)
    ensures |events| - Drained(events) < 3 || References(events[Drained(events)..]) == 0
    decreases |events|
  {
    if CanFill(events, false) {
      var next := FirstReference(events) + 1;
      DrainLeaves(events[next..]);
      assert events[Drained(events)..] == events[next..][Drained(events[next..])..];
    } else {
      assert events[0..] == events;
      NoReferences(events);
    }
  }

  /** What draining one board leaves, and the fragments it produced. */
  datatype Outcome = Outcome(rings: Rings, base: Uint32, counter: int, frags: seq<Fragment>)

  /** The board's overwrite counter after a fill. */
  function CounterLeft(p: Plan): int
    requires p.Valid()
  {
    CounterAfter(p.counter, p.events[..p.CutAt(p.Count())])
  }

  function DrainAll(r: Rings, window: Uint32, base: Uint32, counter: int, febId: int): (o: Outcome)
    requires r.Aligned() && NoRefusal(window)
    ensures o.rings.Aligned()
    decreases |r.events|
  {
    if CanFill(r.events, false) then
      var p := PlanOf(r, window, base, counter, febId);
      var rest := DrainAll(r.Drop(FirstReference(r.events) + 1), window, p.base,
                           CounterLeft(p), febId);
      rest.(frags := FragmentsOf(p, p.Count()) + rest.frags)
    else
      Outcome(r, base, counter, [])
  }

  /** Draining removes the oldest entries of the rings, up to the last reference that a fill can reach. */
  lemma {:induction false} DrainDrops(r: Rings, window: Uint32, base: Uint32, counter: int, febId: int)
    requires r.Aligned() && NoRefusal(window)
    ensures DrainAll(r, window, base, counter, febId).rings == r.Drop(Drained(r.events))
    decreases |r.events|
  {
    hide PlanOf, FragmentsOf, CounterLeft, FirstReference;
    if CanFill(r.events, false) {
      var p := PlanOf(r, window, base, counter, febId);
      var next := FirstReference(r.events) + 1;
      DrainDrops(r.Drop(next), window, p.base, CounterLeft(p), febId);
      DropTwice(r, next, Drained(r.events[next..]));
    } else {
      assert r.Drop(0) == r;
    }
  }

  lemma DropTwice(r: Rings, n: nat, m: nat)
    requires r.Aligned() && n + m <= |r.events|
    ensures r.Drop(n).Drop(m) == r.Drop(n + m)
  {}

  /** Every fill on the way places all it erases. */
  ghost predicate DrainComplete(r: Rings, window: Uint32, base: Uint32, counter: int, febId: int)
    requires r.Aligned() && NoRefusal(window)
    decreases |r.events|
  {
    CanFill(r.events, false) ==>
      var p := PlanOf(r, window, base, counter, febId);
      && Complete(p)
      && DrainComplete(r.Drop(FirstReference(r.events) + 1), window, p.base,
                       CounterLeft(p), febId)
  }

  lemma PayloadsSnoc(frags: seq<Fragment>, last: Fragment)
    ensures Payloads(frags + [last]) == Payloads(frags) + last.payload
  {
    LastOut(frags, last);
  }

  lemma {:induction false} PayloadsAppend(a: seq<Fragment>, b: seq<Fragment>)
    ensures Payloads(a + b) == Payloads(a) + Payloads(b)
  {
    if b == [] {
      assert a + b == a;
    } else {
      var n := |b| - 1;
      PayloadsAppend(a, b[..n]);
      PayloadsSnoc(a + b[..n], b[n]);
      PayloadsSnoc(b[..n], b[n]);
      hide Payloads;
      assert b == b[..n] + [b[n]] && a + b == a + b[..n] + [b[n]];
      Associate(Payloads(a), Payloads(b[..n]), b[n].payload);
    }
  }

  lemma Associate<T>(a: seq<T>, b: seq<T>, c: seq<T>)
    ensures a + b + c == a + (b + c)
  {}

  lemma CompletePayload(r: Rings, window: Uint32, base: Uint32, counter: int, febId: int)
    requires r.Aligned() && NoRefusal(window) && FirstReference(r.events) < |r.events|
    requires Complete(PlanOf(r, window, base, counter, febId))
    ensures
      var p := PlanOf(r, window, base, counter, febId);
      Payloads(FragmentsOf(p, p.Count())) == r.events[..FirstReference(r.events) + 1]
  {
    var p := PlanOf(r, window, base, counter, febId);
    PayloadsPartition(p, p.Count());
    assert p.events == r.events[..FirstReference(r.events) + 1];
    assert p.events[..|p.events|] == p.events;
    hide FragmentsOf, Payloads, Plan.CutAt, Plan.Count, FirstReference;
  }

  /** Then the payloads of all fragments are exactly the events removed, in order. */
  lemma {:induction false} DrainPayloads(r: Rings, window: Uint32, base: Uint32, counter: int, febId: int)
    requires r.Aligned() && NoRefusal(window) && DrainComplete(r, window, base, counter, febId)
    ensures Payloads(DrainAll(r, window, base, counter, febId).frags) == r.events[..Drained(r.events)]
    decreases |r.events|
  {
    hide PlanOf, FragmentsOf, CounterLeft, Complete, FirstReference, Payloads;
    DrainOne(r, window, base, counter, febId);
    hide DrainAll;
    if CanFill(r.events, false) {
      var p := PlanOf(r, window, base, counter, febId);
      var next := FirstReference(r.events) + 1;
      var rest := DrainAll(r.Drop(next), window, p.base, CounterLeft(p), febId);
      CompletePayload(r, window, base, counter, febId);
      DrainPayloads(r.Drop(next), window, p.base, CounterLeft(p), febId);
      hide DrainComplete;
      PayloadsAppend(FragmentsOf(p, p.Count()), rest.frags);
      JoinPrefix(r.events, next, Drained(r.events[next..]));
    } else {
      NoPayloads();
    }
  }

  lemma NoPayloads()
    ensures Payloads([]) == []
  {}

  lemma JoinPrefix(events: seq<Event>, n: nat, m: nat)
    requires n + m <= |events|
    ensures events[..n] + events[n..][..m] == events[..n + m]
  {}

  /** Something is drained exactly when there are more than two events and a reference pulse among them. */
  lemma DrainsIff(events: seq<Event>)
    ensures Drained(events) > 0
        <==> |events| > 2 && exists i :: 0 <= i < |events| && events[i].flags / 4 % 2 == 1
  {
    CanFillIff(events, false);
  }

  lemma DrainOne(r: Rings, window: Uint32, base: Uint32, counter: int, febId: int)
    requires r.Aligned() && NoRefusal(window)
    ensures
      var o := DrainAll(r, window, base, counter, febId);
      if !CanFill(r.events, false) then o == Outcome(r, base, counter, [])
      else
        var p := PlanOf(r, window, base, counter, febId);
        var rest := DrainAll(r.Drop(FirstReference(r.events) + 1), window, p.base, CounterLeft(p), febId);
        o == rest.(frags := FragmentsOf(p, p.Count()) + rest.frags)
  {
    hide PlanOf, FragmentsOf, CounterLeft, FirstReference;
  }

  /** The tally of the fragments of one complete fill. */
  lemma CompleteTally(r: Rings, window: Uint32, base: Uint32, counter: int, febId: int)
    requires r.Aligned() && NoRefusal(window) && FirstReference(r.events) < |r.events|
    requires Complete(PlanOf(r, window, base, counter, febId))
    ensures
      var p, next := PlanOf(r, window, base, counter, febId), FirstReference(r.events) + 1;
      && TotalTally(FragmentsOf(p, p.Count())) == TallyOf(r.events, r.dropped, counter, 0, next)
      && CounterLeft(p) == CounterAfter(counter, r.events[..next])
  {
    hide PlanOf, FirstReference, FragmentsOf, TotalTally, TallyOf, CounterLeft, CounterAfter, Complete, Plan.Count;
    PlanTakes(r, window, base, counter, febId);
    CompletePlanTally(r, PlanOf(r, window, base, counter, febId), FirstReference(r.events) + 1);
  }

  lemma PlanTakes(r: Rings, window: Uint32, base: Uint32, counter: int, febId: int)
    requires r.Aligned() && FirstReference(r.events) < |r.events|
    ensures
      var p, next := PlanOf(r, window, base, counter, febId), FirstReference(r.events) + 1;
      p.events == r.events[..next] && p.dropped == r.dropped[..next] && p.counter == counter
  {}

  lemma CompletePlanTally(r: Rings, p: Plan, next: nat)
    requires r.Aligned() && p.Valid() && next <= |r.events| && Complete(p)
    requires p.events == r.events[..next] && p.dropped == r.dropped[..next]
    ensures TotalTally(FragmentsOf(p, p.Count())) == TallyOf(r.events, r.dropped, p.counter, 0, next)
    ensures CounterLeft(p) == CounterAfter(p.counter, r.events[..next])
  {
    hide FragmentsOf, TotalTally, Plan.CutAt, Plan.Count, TallyOf;
    CountersAddUp(p, p.Count());
    TallyOfPrefix(r.events, r.dropped, p.counter, next, 0, next);
    assert p.events[..next] == p.events;
  }

  lemma TallyOfRest(r: Rings, counter: int, n: nat, m: nat)
    requires r.Aligned() && n + m <= |r.events|
    ensures
      var after := CounterAfter(counter, r.events[..n]);
      && TallyOf(r.events[n..], r.dropped[n..], after, 0, m) == TallyOf(r.events, r.dropped, counter, n, n + m)
      && CounterAfter(after, r.events[n..][..m]) == CounterAfter(counter, r.events[..n + m])
  {
    assert r.events[n..][0..m] == r.events[n..n + m] && r.dropped[n..][0..m] == r.dropped[n..n + m];
    assert r.events[n..][..m] == r.events[n..n + m] && r.events[n..][..0] == [];
    assert m > 0 ==> r.events[n..n + m][m - 1] == r.events[..n + m][n + m - 1];
    hide Missed, Overwritten, Sum;
  }

  /** Complete fills report the counters of exactly the events removed, across all fragments of all fills, and the
      board's overwrite counter goes on where they end. */
  lemma {:induction false} DrainTallies(r: Rings, window: Uint32, base: Uint32, counter: int, febId: int)
    requires r.Aligned() && NoRefusal(window) && DrainComplete(r, window, base, counter, febId)
    ensures
      var o, n := DrainAll(r, window, base, counter, febId), Drained(r.events);
      && TotalTally(o.frags) == TallyOf(r.events, r.dropped, counter, 0, n)
      && o.counter == CounterAfter(counter, r.events[..n])
    decreases |r.events|
  {
    hide PlanOf, FragmentsOf, CounterLeft, Complete, FirstReference, TotalTally, TallyOf, CounterAfter, DrainAll;
    DrainOne(r, window, base, counter, febId);
    if CanFill(r.events, false) {
      var p, next := PlanOf(r, window, base, counter, febId), FirstReference(r.events) + 1;
      var rest := DrainAll(r.Drop(next), window, p.base, CounterLeft(p), febId);
      CompleteTally(r, window, base, counter, febId);
      DrainTallies(r.Drop(next), window, p.base, CounterLeft(p), febId);
      JoinTallies(r, counter, next, Drained(r.events[next..]), FragmentsOf(p, p.Count()), rest.frags);
    } else {
      NothingTallied(r, counter);
    }
  }

  lemma JoinTallies(r: Rings, counter: int, n: nat, m: nat, a: seq<Fragment>, b: seq<Fragment>)
    requires r.Aligned() && n + m <= |r.events|
    requires TotalTally(a) == TallyOf(r.events, r.dropped, counter, 0, n)
    requires TotalTally(b) == TallyOf(r.events[n..], r.dropped[n..], CounterAfter(counter, r.events[..n]), 0, m)
    ensures TotalTally(a + b) == TallyOf(r.events, r.dropped, counter, 0, n + m)
    ensures CounterAfter(CounterAfter(counter, r.events[..n]), r.events[n..][..m])
         == CounterAfter(counter, r.events[..n + m])
  {
    hide TotalTally, TallyOf, CounterAfter;
    TotalAppend(a, b);
    TallyOfRest(r, counter, n, m);
    TallySplit(r.events, r.dropped, counter, n, n + m);
  }

  lemma NothingTallied(r: Rings, counter: int)
    requires r.Aligned()
    ensures TotalTally([]) == TallyOf(r.events, r.dropped, counter, 0, 0)
    ensures CounterAfter(counter, r.events[..0]) == counter
  {}

  /** In terms of what the events carry: with complete fills, the fragments together report the losses of the events
      removed, their refused neighbours and their number, and, unless the board's counter ever went back, the growth of
      that counter. */
  lemma DrainReports(r: Rings, window: Uint32, base: Uint32, counter: int, febId: int)
    requires r.Aligned() && NoRefusal(window) && DrainComplete(r, window, base, counter, febId)
    ensures
      var o, n := DrainAll(r, window, base, counter, febId), Drained(r.events);
      var t := TotalTally(o.frags);
      && t.missed == Sum(seq(n, i requires 0 <= i < n <= |r.events| => r.events[i].lostFpga))
      && t.dropped == Sum(r.dropped[..n]) && t.nEvents == n
      && (n > 0 && CounterGrows(counter, r.events[..n]) ==> t.overwritten == r.events[n - 1].lostCpu - counter)
      && (n > 0 ==> o.counter == r.events[n - 1].lostCpu)
  {
    hide DrainAll, DrainComplete, TotalTally, Missed, Overwritten, CounterGrows, Sum, Drained;
    DrainTallies(r, window, base, counter, febId);
    var n := Drained(r.events);
    MissedIsSum(r.events[..n]);
    OverwrittenTelescopes(counter, r.events[..n]);
    assert r.events[0..n] == r.events[..n] && r.dropped[0..n] == r.dropped[..n] && r.events[..0] == [];
    assert seq(n, i requires 0 <= i < n => r.events[..n][i].lostFpga)
        == seq(n, i requires 0 <= i < n <= |r.events| => r.events[i].lostFpga);
  }

  /** What the fragments report, told by the events they carry. */
  ghost predicate Reports(frags: seq<Fragment>, counter: int, after: int) {
    var events, t := Payloads(frags), TotalTally(frags);
    && t.missed == Missed(events) && t.overwritten == Overwritten(counter, events) && t.nEvents == |events|
    && after == CounterAfter(counter, events)
  }

  lemma FillReports(p: Plan)
    requires p.Valid()
    ensures Reports(FragmentsOf(p, p.Count()), p.counter, CounterLeft(p))
  {
    hide FragmentsOf, TotalTally, Payloads, Plan.CutAt, Plan.Count, Missed, Overwritten, CounterAfter;
    CountersAddUp(p, p.Count());
    PayloadsPartition(p, p.Count());
    var cut := p.CutAt(p.Count());
    assert p.events[0..cut] == p.events[..cut] && p.events[..0] == [];
    CounterOfNothing(p.counter);
  }

  lemma CounterOfNothing(counter: int)
    ensures CounterAfter(counter, []) == counter
  {}

  lemma CounterAppend(counter: int, a: seq<Event>, b: seq<Event>)
    ensures CounterAfter(CounterAfter(counter, a), b) == CounterAfter(counter, a + b)
  {
    assert b == [] ==> a + b == a;
  }

  lemma ReportsAppend(a: seq<Fragment>, b: seq<Fragment>, counter: int, mid: int, after: int)
    requires Reports(a, counter, mid) && Reports(b, mid, after)
    ensures Reports(a + b, counter, after)
  {
    hide TotalTally, Payloads, Missed, Overwritten, CounterAfter;
    TotalAppend(a, b);
    PayloadsAppend(a, b);
    MissedAppend(Payloads(a), Payloads(b));
    OverwrittenAppend(counter, Payloads(a), Payloads(b));
    CounterAppend(counter, Payloads(a), Payloads(b));
  }

  /** For every input, complete fills or not: the fragments report the losses of the events that they carry, and the
      growth of the overwrite counter along these alone; what an incomplete fill erases does not move the counter. */
  lemma {:induction false} DrainReportsCarried(r: Rings, window: Uint32, base: Uint32, counter: int, febId: int)
    requires r.Aligned() && NoRefusal(window)
    ensures
      var o := DrainAll(r, window, base, counter, febId);
      Reports(o.frags, counter, o.counter)
    decreases |r.events|
  {
    hide PlanOf, FragmentsOf, CounterLeft, FirstReference, DrainAll, Reports, Plan.Count;
    DrainOne(r, window, base, counter, febId);
    if CanFill(r.events, false) {
      var p := PlanOf(r, window, base, counter, febId);
      PlanTakes(r, window, base, counter, febId);
      var rest := DrainAll(r.Drop(FirstReference(r.events) + 1), window, p.base, CounterLeft(p), febId);
      FillReports(p);
      DrainReportsCarried(r.Drop(FirstReference(r.events) + 1), window, p.base, CounterLeft(p), febId);
      ReportsAppend(FragmentsOf(p, p.Count()), rest.frags, counter, CounterLeft(p), rest.counter);
    } else {
      NothingReported(counter);
    }
  }

  lemma NothingReported(counter: int)
    ensures Reports([], counter, counter)
  {}

  ghost predicate AllOf(frags: seq<Fragment>, febId: int) {
    forall i | 0 <= i < |frags| :: frags[i].meta.febId == febId && frags[i].Verify()
  }

  lemma PlanOfBoard(r: Rings, window: Uint32, base: Uint32, counter: int, febId: int, n: nat)
    requires r.Aligned() && NoRefusal(window) && FirstReference(r.events) < |r.events|
    ensures AllOf(FragmentsOf(PlanOf(r, window, base, counter, febId), n), febId)
  {
    var p := PlanOf(r, window, base, counter, febId);
    assert p.febId == febId;
    hide PlanOf, FragmentsOf, Plan.FragmentAt, Fragment.Verify;
    forall i | 0 <= i < n ensures FragmentsOf(p, n)[i].meta.febId == febId && FragmentsOf(p, n)[i].Verify() {
      FragmentsOfAt(p, n, i);
      FragmentParts(p, i);
    }
  }

  /** All fragments of a board carry its id and announce the events they hold. */
  lemma {:induction false} DrainOfBoard(r: Rings, window: Uint32, base: Uint32, counter: int, febId: int)
    requires r.Aligned() && NoRefusal(window)
    ensures AllOf(DrainAll(r, window, base, counter, febId).frags, febId)
    decreases |r.events|
  {
    hide PlanOf, FragmentsOf, CounterLeft, FirstReference, Fragment.Verify, DrainAll;
    DrainOne(r, window, base, counter, febId);
    if CanFill(r.events, false) {
      var p := PlanOf(r, window, base, counter, febId);
      PlanOfBoard(r, window, base, counter, febId, p.Count());
      DrainOfBoard(r.Drop(FirstReference(r.events) + 1), window, p.base, CounterLeft(p), febId);
    }
  }

  /** One attempt to fill, with windows for which none is refused. */
  method FillOnce(gen: Generator, feb: FebBuffer) returns (ok: bool, frags: seq<Fragment>)
    requires feb.Valid() && NoRefusal(gen.window)
    modifies gen`seqIdMinimumSec, feb`buffer, feb`timebuffer, feb`droppedbuffer, feb`overwrittenCounter
    ensures feb.Valid() && (ok <==> CanFill(old(feb.buffer), false))
    ensures
      if !ok then
        && frags == [] && feb.View() == old(feb.View()) && gen.seqIdMinimumSec == old(gen.seqIdMinimumSec)
        && feb.overwrittenCounter == old(feb.overwrittenCounter)
      else
        var p := PlanOf(old(feb.View()), gen.window, old(gen.seqIdMinimumSec), old(feb.overwrittenCounter), feb.id);
        && feb.View() == old(feb.View()).Drop(FirstReference(old(feb.buffer)) + 1)
        && gen.seqIdMinimumSec == p.base && feb.overwrittenCounter == CounterLeft(p)
        && frags == FragmentsOf(p, p.Count())
  {
    hide PlanOf, FragmentsOf, FirstReference;
    if CanFill(feb.buffer, false) {
      NeverThrows(PlanOf(feb.View(), gen.window, gen.seqIdMinimumSec, feb.overwrittenCounter, feb.id));
    }
    hide Plan.Count, Plan.Throws, Plan.CutAt;
    var threw;
    ok, threw, frags := gen.FillFragment(feb, false);
  }

  /** The inner loop: fill one board until a fill does nothing. */
  method DrainBoard(gen: Generator, feb: FebBuffer) returns (frags: seq<Fragment>)
    requires feb.Valid() && NoRefusal(gen.window)
    modifies gen`seqIdMinimumSec, feb`buffer, feb`timebuffer, feb`droppedbuffer, feb`overwrittenCounter
    ensures feb.Valid() && !CanFill(feb.buffer, false)
    ensures Outcome(feb.View(), gen.seqIdMinimumSec, feb.overwrittenCounter, frags)
         == DrainAll(old(feb.View()), gen.window, old(gen.seqIdMinimumSec), old(feb.overwrittenCounter), feb.id)
  {
    hide PlanOf, FragmentsOf, CounterLeft, FirstReference, DrainAll;
    ghost var goal := DrainAll(feb.View(), gen.window, gen.seqIdMinimumSec, feb.overwrittenCounter, feb.id);
    frags := [];
    var more := true;
    while more
      invariant feb.Valid()
      invariant
        var rest := DrainAll(feb.View(), gen.window, gen.seqIdMinimumSec, feb.overwrittenCounter, feb.id);
        goal == rest.(frags := frags + rest.frags)
      invariant !more ==> !CanFill(feb.buffer, false)
      decreases |feb.buffer|, more
    {
      DrainOne(feb.View(), gen.window, gen.seqIdMinimumSec, feb.overwrittenCounter, feb.id);
      ghost var sofar := frags;
      var next;
      more, next := FillOnce(gen, feb);
      frags := frags + next;
      ghost var rest := DrainAll(feb.View(), gen.window, gen.seqIdMinimumSec, feb.overwrittenCounter, feb.id);
      assert sofar + (next + rest.frags) == frags + rest.frags;
    }
    DrainOne(feb.View(), gen.window, gen.seqIdMinimumSec, feb.overwrittenCounter, feb.id);
    assert frags + [] == frags;
  }

  /** What one board brings to the outer loop. */
  datatype Source = Source(rings: Rings, counter: int, febId: int)

  ghost function SourceOf(feb: FebBuffer): (s: Source)
    requires feb.Valid()
    reads feb
    ensures s.rings.Aligned()
  {
    Source(feb.View(), feb.overwrittenCounter, feb.id)
  }

  ghost function Sources(febs: seq<FebBuffer>): (s: seq<Source>)
    requires forall i | 0 <= i < |febs| :: febs[i].Valid()
    reads febs
    ensures |s| == |febs| && AllAligned(s) && forall i | 0 <= i < |s| :: s[i] == SourceOf(febs[i])
  {
    if febs == [] then [] else Sources(febs[..|febs| - 1]) + [SourceOf(febs[|febs| - 1])]
  }

  ghost predicate AllAligned(boards: seq<Source>) {
    forall i | 0 <= i < |boards| :: boards[i].rings.Aligned()
  }

  /** All boards in turn, the sequence base passed on from board to board. */
  function DrainEach(boards: seq<Source>, window: Uint32, base: Uint32): (outs: seq<Outcome>)
    requires NoRefusal(window) && AllAligned(boards)
    ensures |outs| == |boards|
  {
    if boards == [] then []
    else
      var o := DrainAll(boards[0].rings, window, base, boards[0].counter, boards[0].febId);
      [o] + DrainEach(boards[1..], window, o.base)
  }

  function AllFragments(outs: seq<Outcome>): seq<Fragment> {
    if outs == [] then [] else outs[0].frags + AllFragments(outs[1..])
  }

  function BaseAfter(outs: seq<Outcome>, base: Uint32): Uint32 {
    if outs == [] then base else outs[|outs| - 1].base
  }

  /** Number of fragments of the first `n` boards. */
  function FragmentsBefore(outs: seq<Outcome>, n: nat): nat
    requires n <= |outs|
  {
    if n == 0 then 0 else FragmentsBefore(outs, n - 1) + |outs[n - 1].frags|
  }

  lemma {:induction false} FragmentsBeforeRest(outs: seq<Outcome>, n: nat)
    requires n < |outs|
    ensures FragmentsBefore(outs, n + 1) == |outs[0].frags| + FragmentsBefore(outs[1..], n)
  {
    if n > 0 {
      FragmentsBeforeRest(outs, n - 1);
    }
  }

  /** The fragments come board by board, in the order of the boards. */
  lemma {:induction false} BoardOrder(outs: seq<Outcome>, n: nat)
    requires n < |outs|
    ensures FragmentsBefore(outs, n) + |outs[n].frags| <= |AllFragments(outs)|
    ensures
      var from := FragmentsBefore(outs, n);
      AllFragments(outs)[from..from + |outs[n].frags|] == outs[n].frags
  {
    if n > 0 {
      BoardOrder(outs[1..], n - 1);
      FragmentsBeforeRest(outs, n - 1);
      SliceOfRest(outs[0].frags, AllFragments(outs[1..]), FragmentsBefore(outs[1..], n - 1), |outs[n].frags|);
    }
  }

  lemma SliceOfRest<T>(front: seq<T>, rest: seq<T>, from: nat, n: nat)
    requires from + n <= |rest|
    ensures (front + rest)[|front| + from..|front| + from + n] == rest[from..from + n]
  {}

  ghost predicate AllNumbered(frags: seq<Fragment>, base: Uint32) {
    forall i | 0 <= i < |frags| :: frags[i].meta.seqId == SequenceId(frags[i].meta.begin, base)
  }

  lemma PlanNumbered(p: Plan, n: nat)
    requires p.Valid()
    ensures AllNumbered(FragmentsOf(p, n), p.base)
  {
    forall i | 0 <= i < n
      ensures FragmentsOf(p, n)[i].meta.seqId == SequenceId(FragmentsOf(p, n)[i].meta.begin, p.base)
    {
      FragmentsOfAt(p, n, i);
      FragmentParts(p, i);
    }
    hide FragmentsOf, Plan.FragmentAt, SequenceId;
  }

  lemma NumberedAppend(a: seq<Fragment>, b: seq<Fragment>, base: Uint32)
    requires AllNumbered(a, base) && AllNumbered(b, base)
    ensures AllNumbered(a + b, base)
  {
    hide SequenceId;
  }

  lemma BaseOfPlan(r: Rings, window: Uint32, base: Uint32, counter: int, febId: int)
    requires r.Aligned() && FirstReference(r.events) < |r.events|
    ensures base != 0 ==> PlanOf(r, window, base, counter, febId).base == base
  {
    hide FirstReference, Corrected, CorrectedTimes, TimeCorrection, FirstSecond, ElapsedSecs;
  }

  /** Once set, the sequence base stays the same while a board is drained, and numbers all its fragments. */
  lemma {:induction false} DrainNumbered(r: Rings, window: Uint32, base: Uint32, counter: int, febId: int)
    requires r.Aligned() && NoRefusal(window) && base != 0
    ensures
      var o := DrainAll(r, window, base, counter, febId);
      o.base == base && AllNumbered(o.frags, base)
    decreases |r.events|
  {
    DrainOne(r, window, base, counter, febId);
    if CanFill(r.events, false) {
      var p := PlanOf(r, window, base, counter, febId);
      var next := r.Drop(FirstReference(r.events) + 1);
      BaseOfPlan(r, window, base, counter, febId);
      hide PlanOf, FragmentsOf, CounterLeft, FirstReference, DrainAll, AllNumbered;
      PlanNumbered(p, p.Count());
      DrainNumbered(next, window, base, CounterLeft(p), febId);
      NumberedAppend(FragmentsOf(p, p.Count()), DrainAll(next, window, base, CounterLeft(p), febId).frags, base);
    }
  }

  /** The base in force: the one there is, or else the one that the first board able to fill sets. */
  function BaseInForce(boards: seq<Source>, window: Uint32, base: Uint32): Uint32
    requires NoRefusal(window) && AllAligned(boards)
  {
    if base != 0 || boards == [] then base
    else if CanFill(boards[0].rings.events, false) then
      PlanOf(boards[0].rings, window, 0, boards[0].counter, boards[0].febId).base
    else
      BaseInForce(boards[1..], window, 0)
  }

  /** A board drained while the base is not set. */
  lemma DrainSetsBase(s: Source, window: Uint32)
    requires NoRefusal(window) && s.rings.Aligned() && BaseInForce([s], window, 0) != 0
    ensures
      var o := DrainAll(s.rings, window, 0, s.counter, s.febId);
      o.base == BaseInForce([s], window, 0) && AllNumbered(o.frags, o.base)
  {
    hide PlanOf, FragmentsOf, CounterLeft, FirstReference, DrainAll, AllNumbered, Plan.Count;
    DrainOne(s.rings, window, 0, s.counter, s.febId);
    var p := PlanOf(s.rings, window, 0, s.counter, s.febId);
    var next := s.rings.Drop(FirstReference(s.rings.events) + 1);
    PlanNumbered(p, p.Count());
    DrainNumbered(next, window, p.base, CounterLeft(p), s.febId);
    NumberedAppend(FragmentsOf(p, p.Count()), DrainAll(next, window, p.base, CounterLeft(p), s.febId).frags, p.base);
  }

  /** Every fragment of all boards is numbered from one base, which stays in force afterwards. A base of 0 counts as not
      set, so the exception is a first window in second 10. */
  lemma {:induction false} OneBase(boards: seq<Source>, window: Uint32, base: Uint32)
    requires NoRefusal(window) && AllAligned(boards) && BaseInForce(boards, window, base) != 0
    ensures
      var outs := DrainEach(boards, window, base);
      && AllNumbered(AllFragments(outs), BaseInForce(boards, window, base))
      && BaseAfter(outs, base) == BaseInForce(boards, window, base)
    decreases |boards|
  {
    hide PlanOf, AllNumbered, CanFill;
    if boards == [] {
      NoneNumbered(base);
    } else {
      var s, rest := boards[0], boards[1..];
      var o := DrainAll(s.rings, window, base, s.counter, s.febId);
      DrainOne(s.rings, window, base, s.counter, s.febId);
      if base != 0 {
        DrainNumbered(s.rings, window, base, s.counter, s.febId);
      } else if CanFill(s.rings.events, false) {
        DrainSetsBase(s, window);
      } else {
        NoneNumbered(BaseInForce(rest, window, 0));
      }
      hide DrainAll;
      OneBase(rest, window, o.base);
      NumberedAppend(o.frags, AllFragments(DrainEach(rest, window, o.base)), BaseInForce(boards, window, base));
    }
  }

  lemma NoneNumbered(base: Uint32)
    ensures AllNumbered([], base)
  {}

  /** What the inner loop leaves of a board. */
  ghost predicate Left(feb: FebBuffer, o: Outcome)
    reads feb
  {
    feb.Valid() && !CanFill(feb.buffer, false) && feb.View() == o.rings && feb.overwrittenCounter == o.counter
  }

  method DrainSource(gen: Generator, feb: FebBuffer, ghost was: Source) returns (frags: seq<Fragment>)
    requires feb.Valid() && NoRefusal(gen.window)
    requires was == SourceOf(feb)
    modifies gen`seqIdMinimumSec, feb`buffer, feb`timebuffer, feb`droppedbuffer, feb`overwrittenCounter
    ensures
      var o := DrainAll(was.rings, gen.window, old(gen.seqIdMinimumSec), was.counter, was.febId);
      Left(feb, o) && frags == o.frags && gen.seqIdMinimumSec == o.base
  {
    hide DrainAll;
    frags := DrainBoard(gen, feb);
  }

  lemma NextBoard(boards: seq<Source>, window: Uint32, base: Uint32, n: nat)
    requires NoRefusal(window) && AllAligned(boards) && n < |boards|
    ensures
      var s := boards[n];
      var o := DrainAll(s.rings, window, base, s.counter, s.febId);
      && AllAligned(boards[n..]) && AllAligned(boards[n + 1..])
      && DrainEach(boards[n..], window, base) == [o] + DrainEach(boards[n + 1..], window, o.base)
  {
    assert boards[n..][0] == boards[n] && boards[n..][1..] == boards[n + 1..];
    hide DrainAll;
  }

  lemma FragmentsAppend(a: seq<Outcome>, b: seq<Outcome>)
    ensures AllFragments(a + b) == AllFragments(a) + AllFragments(b)
  {
    if a == [] {
      assert a + b == b;
    } else {
      assert (a + b)[1..] == a[1..] + b;
      FragmentsAppend(a[1..], b);
    }
  }

  /** The outer loop: every configured board in turn, all sharing the generator's sequence base. */
  method GetNext(gen: Generator, febs: seq<FebBuffer>) returns (frags: seq<Fragment>)
    requires NoRefusal(gen.window)
    requires forall i | 0 <= i < |febs| :: febs[i].Valid()
    requires forall i, j | 0 <= i < j < |febs| :: febs[i] != febs[j]
    modifies gen`seqIdMinimumSec, febs
    ensures
      var outs := DrainEach(old(Sources(febs)), gen.window, old(gen.seqIdMinimumSec));
      && (forall i | 0 <= i < |febs| :: Left(febs[i], outs[i]))
      && frags == AllFragments(outs) && gen.seqIdMinimumSec == BaseAfter(outs, old(gen.seqIdMinimumSec))
  {
    hide Left, DrainEach, DrainAll, AllFragments, AllAligned, BaseAfter, Sources, SourceOf;
    frags := [];
    ghost var boards := Sources(febs);
    ghost var outs := DrainEach(boards, gen.window, gen.seqIdMinimumSec);
    ghost var done: seq<Outcome> := [];
    NoBoards(gen.window, gen.seqIdMinimumSec);
    assert boards[0..] == boards && [] + outs == outs;
    for n := 0 to |febs|
      invariant |done| == n && forall i | 0 <= i < n :: Left(febs[i], done[i])
      invariant forall i | n <= i < |febs| :: febs[i].Valid() && boards[i] == SourceOf(febs[i])
      invariant AllAligned(boards[n..]) && outs == done + DrainEach(boards[n..], gen.window, gen.seqIdMinimumSec)
      invariant frags == AllFragments(done) && gen.seqIdMinimumSec == BaseAfter(done, old(gen.seqIdMinimumSec))
    {
      ghost var s, base := boards[n], gen.seqIdMinimumSec;
      ghost var o := DrainAll(s.rings, gen.window, base, s.counter, s.febId);
      NextBoard(boards, gen.window, base, n);
      var board := DrainSource(gen, febs[n], s);
      frags := frags + board;
      OneMore(done, o, DrainEach(boards[n + 1..], gen.window, o.base), old(gen.seqIdMinimumSec));
      done := done + [o];
    }
    NoBoards(gen.window, gen.seqIdMinimumSec);
    assert boards[|febs|..] == [] && done + [] == done;
  }

  lemma OneMore(done: seq<Outcome>, o: Outcome, rest: seq<Outcome>, base: Uint32)
    ensures AllFragments(done + [o]) == AllFragments(done) + o.frags
    ensures BaseAfter(done + [o], base) == o.base
    ensures done + ([o] + rest) == done + [o] + rest
  {
    FragmentsAppend(done, [o]);
    assert [o][1..] == [] && o.frags + [] == o.frags;
  }

  lemma NoBoards(window: Uint32, base: Uint32)
    requires NoRefusal(window)
    ensures DrainEach([], window, base) == [] && AllFragments([]) == [] && BaseAfter([], base) == base
  {}
}
