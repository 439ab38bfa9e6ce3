/** Bookkeeping of one board over any sequence of offered batches and fills. */
module Ledger {
  import opened Words
  import opened Events
  import opened FebBuffer
  import opened Unwrap
  import opened Fill
  import opened FillTheorems

  /** `base` is the shared sequence base at the time of the fill, which other boards may have set. */
  datatype Op = Offer(batch: seq<Event>, span: Span) | FillOnce(base: Uint32)

  datatype Config = Config(maxTimeDiff: int, window: Uint32, febId: int)

  datatype Board = Board(rings: Rings, counter: int, emitted: seq<Fragment>, offered: nat, lost: nat)

  const NewBoard := Board(Rings([], [], []), 0, [], 0, 0)

  ghost predicate ValidOp(op: Op) {
    op.Offer? ==> op.batch != []
  }

  function NextPlan(b: Board, cfg: Config, base: Uint32): Plan
    requires b.rings.Aligned() && CanFill(b.rings.events, false)
  {
    PlanOf(b.rings, cfg.window, base, b.counter, cfg.febId)
  }

  /** What a fill erases without having put it in a fragment: events, and refused events attached to them. */
  function Unplaced(p: Plan): nat
    requires p.Valid()
  {
    var cut := p.CutAt(p.Count());
    |p.events| - cut + Sum(p.dropped[cut..])
  }

  /** One operation, as `FebBuffer.Insert` and `Generator.FillFragment` specify it. */
  function Step(b: Board, cfg: Config, op: Op): (next: Board)
    requires b.rings.Aligned() && ValidOp(op) && NoRefusal(cfg.window)
    ensures next.rings.Aligned()
  {
    match op
    case Offer(batch, span) =>
      b.(rings := b.rings.Append(BatchEntries(batch, cfg.maxTimeDiff, span)), offered := b.offered + |batch|)
    case FillOnce(base) =>
      if CanFill(b.rings.events, false) then
        var p := NextPlan(b, cfg, base);
        b.(rings := b.rings.Drop(FirstReference(b.rings.events) + 1),
           counter := CounterAfter(b.counter, p.events[..p.CutAt(p.Count())]),
           emitted := b.emitted + FragmentsOf(p, p.Count()),
           lost := b.lost + Unplaced(p))
      else
        b
  }

  function Run(cfg: Config, ops: seq<Op>): (b: Board)
    requires (forall op | op in ops :: ValidOp(op)) && NoRefusal(cfg.window)
    ensures b.rings.Aligned()
  {
    if ops == [] then NewBoard else Step(Run(cfg, ops[..|ops| - 1]), cfg, ops[|ops| - 1])
  }

  /** Events that the emitted fragments account for, the quantity compared between boards. */
  function Reported(frags: seq<Fragment>): nat {
    TotalTally(frags).nEvents + TotalTally(frags).dropped
  }

  lemma ReportedAppend(a: seq<Fragment>, b: seq<Fragment>)
    ensures Reported(a + b) == Reported(a) + Reported(b)
  {
    TotalAppend(a, b);
  }

  /** A fill reports or loses exactly what it erases. */
  lemma FillBalance(r: Rings, p: Plan)
    requires r.Aligned() && p.Valid() && |p.events| <= |r.events| && p.dropped == r.dropped[..|p.events|]
    ensures Weight(r) == Weight(r.Drop(|p.events|)) + Reported(FragmentsOf(p, p.Count())) + Unplaced(p)
  {
    var cut := p.CutAt(p.Count());
    CountersAddUp(p, p.Count());
    WeightSplit(r, |p.events|);
    SumAppend(p.dropped[..cut], p.dropped[cut..]);
    assert p.dropped == p.dropped[..cut] + p.dropped[cut..];
  }

  ghost predicate Balanced(b: Board) {
    b.offered == Weight(b.rings) + Reported(b.emitted) + b.lost
  }

  lemma OfferBalance(b: Board, cfg: Config, batch: seq<Event>, span: Span)
    requires b.rings.Aligned() && batch != [] && NoRefusal(cfg.window) && Balanced(b)
    ensures Balanced(Step(b, cfg, Offer(batch, span)))
  {
    hide BatchEntries, Weight, Reported;
    BatchWeight(batch, cfg.maxTimeDiff, span);
    WeightAppend(b.rings, BatchEntries(batch, cfg.maxTimeDiff, span));
  }

  lemma PlanShape(r: Rings, window: Uint32, base: Uint32, counter: int, febId: int)
    requires r.Aligned() && FirstReference(r.events) < |r.events| && NoRefusal(window)
    ensures
      var p := PlanOf(r, window, base, counter, febId);
      var n := FirstReference(r.events) + 1;
      p.Valid() && |p.events| == n && p.dropped == r.dropped[..n]
  {}

  lemma FillStepBalance(b: Board, cfg: Config, base: Uint32)
    requires b.rings.Aligned() && NoRefusal(cfg.window) && Balanced(b)
    requires CanFill(b.rings.events, false)
    ensures Balanced(Step(b, cfg, FillOnce(base)))
  {
    PlanShape(b.rings, cfg.window, base, b.counter, cfg.febId);
    hide PlanOf, FragmentsOf, Reported, Weight, Unplaced;
    var p := NextPlan(b, cfg, base);
    FillBalance(b.rings, p);
    ReportedAppend(b.emitted, FragmentsOf(p, p.Count()));
  }

  /** Over every run: every event offered is still buffered, or counted as refused on a buffered entry, or reported by
      an emitted fragment, or was erased by an incomplete fill. */
  lemma {:induction false} LedgerBalances(cfg: Config, ops: seq<Op>)
    requires (forall op | op in ops :: ValidOp(op)) && NoRefusal(cfg.window)
    ensures
      var b := Run(cfg, ops);
      b.offered == |b.rings.events| + Sum(b.rings.dropped) + Reported(b.emitted) + b.lost
  {
    if ops != [] {
      LedgerBalances(cfg, ops[..|ops| - 1]);
      var b, op := Run(cfg, ops[..|ops| - 1]), ops[|ops| - 1];
      assert ValidOp(op);
      if op.Offer? {
        OfferBalance(b, cfg, op.batch, op.span);
      } else if CanFill(b.rings.events, false) {
        FillStepBalance(b, cfg, op.base);
      }
    }
  }

  /** Every fill of the run that does anything places everything it erases. */
  ghost predicate AllComplete(cfg: Config, ops: seq<Op>)
    requires (forall op | op in ops :: ValidOp(op)) && NoRefusal(cfg.window)
  {
    ops == [] ||
    (AllComplete(cfg, ops[..|ops| - 1]) && PlacesAll(Run(cfg, ops[..|ops| - 1]), cfg, ops[|ops| - 1]))
  }

  ghost predicate PlacesAll(b: Board, cfg: Config, op: Op)
    requires b.rings.Aligned() && NoRefusal(cfg.window)
  {
    op.FillOnce? && CanFill(b.rings.events, false) ==> Complete(NextPlan(b, cfg, op.base))
  }

  /** Nothing is lost over a run exactly when every one of its fills is complete. */
  lemma {:induction false} NothingLostIff(cfg: Config, ops: seq<Op>)
    requires (forall op | op in ops :: ValidOp(op)) && NoRefusal(cfg.window)
    ensures Run(cfg, ops).lost == 0 <==> AllComplete(cfg, ops)
  {
    if ops != [] {
      NothingLostIff(cfg, ops[..|ops| - 1]);
      LostInStep(Run(cfg, ops[..|ops| - 1]), cfg, ops[|ops| - 1]);
    }
  }

  lemma LostInStep(b: Board, cfg: Config, op: Op)
    requires b.rings.Aligned() && ValidOp(op) && NoRefusal(cfg.window)
    ensures Step(b, cfg, op).lost >= b.lost
    ensures Step(b, cfg, op).lost == b.lost <==> PlacesAll(b, cfg, op)
  {
    if op.FillOnce? && CanFill(b.rings.events, false) {
      var p := NextPlan(b, cfg, op.base);
      if Complete(p) {
        assert p.dropped[p.CutAt(p.Count())..] == [];
      }
    }
  }
}
