/** The two threads on one board's rings. The producer checks for room without the lock, then appends under it; the
    consumer reads the size and the entries without the lock, then erases under it. Every ring operation is one step,
    and the order in which the producer appends to the rings is a parameter. */
module RingProtocol {
  import opened Events
  import opened FebBuffer

  datatype Put = PutTimes | PutZeros | PutLast | PutEvents

  /** The order of the original: times, refused counts in two parts, events last. */
  const SourceOrder: seq<Put> := [PutTimes, PutZeros, PutLast, PutEvents]

  /** All four appends once, the refused counts in their own order. */
  ghost predicate IsOrder(order: seq<Put>) {
    && |order| == 4
    && (forall put: Put :: put in order)
    && (forall i, j | 0 <= i < j < 4 :: order[i] != order[j])
    && (forall i, j | 0 <= i < 4 && 0 <= j < 4 && order[i] == PutZeros && order[j] == PutLast :: i < j)
  }

  datatype Config = Config(order: seq<Put>, capacity: nat, maxTimeDiff: int)

  datatype Owner = Nobody | Producer | Consumer

  datatype ProducerState =
    | Idle
    | Admitted(batch: seq<Event>)
    | Appending(entries: Rings, stage: nat)

  /** A reader holds the size it read and, for the proof, what the queue contained at that moment. */
  datatype ConsumerState =
    | Resting
    | Reading(n: nat, seen: Rings)
    | Erasing(k: nat, done: nat)

  /** `queue` is only there for the proof: the entries of all finished batches that are not erased yet. */
  datatype State = State(rings: Rings, lock: Owner, producer: ProducerState, consumer: ConsumerState, queue: Rings)

  datatype Step =
    | Admit(batch: seq<Event>)
    | LockForAppend(span: Span)
    | PutNext
    | UnlockAfterAppend
    | ReadSize
    | GiveUp
    | LockForErase(k: nat)
    | EraseNext
    | UnlockAfterErase

  const Initial := State(Rings([], [], []), Nobody, Idle, Resting, Rings([], [], []))

  function Zeros(entries: Rings): seq<nat> {
    if entries.dropped == [] then [] else entries.dropped[..|entries.dropped| - 1]
  }

  function Last(entries: Rings): seq<nat> {
    if entries.dropped == [] then [] else entries.dropped[|entries.dropped| - 1..]
  }

  /** The part of the entries that is in a ring once the puts in `done` have been made. */
  function PutSoFar(entries: Rings, done: seq<Put>): Rings {
    Rings(if PutEvents in done then entries.events else [],
          if PutTimes in done then entries.spans else [],
          (if PutZeros in done then Zeros(entries) else []) + (if PutLast in done then Last(entries) else []))
  }

  function MakePut(cfg: Config, r: Rings, entries: Rings, put: Put): Rings {
    match put
    case PutTimes => r.(spans := Push(cfg.capacity, r.spans, entries.spans))
    case PutZeros => r.(dropped := Push(cfg.capacity, r.dropped, Zeros(entries)))
    case PutLast => r.(dropped := Push(cfg.capacity, r.dropped, Last(entries)))
    case PutEvents => r.(events := Push(cfg.capacity, r.events, entries.events))
  }

  /** Removing more entries than there are is undefined in the original; `EraseWithinRings` shows it never happens. */
  function EraseBegin<T>(ring: seq<T>, k: nat): seq<T> {
    if k <= |ring| then ring[k..] else []
  }

  function EraseAll(r: Rings, k: nat): Rings {
    Rings(EraseBegin(r.events, k), EraseBegin(r.spans, k), EraseBegin(r.dropped, k))
  }

  predicate Enabled(cfg: Config, s: State, step: Step) {
    match step
    case Admit(batch) => s.producer.Idle? && batch != [] && cfg.capacity - |s.rings.events| >= |batch|
    case LockForAppend(_) => s.producer.Admitted? && s.producer.batch != [] && s.lock.Nobody?
    case PutNext => s.producer.Appending? && s.producer.stage < |cfg.order|
    case UnlockAfterAppend => s.producer.Appending? && s.producer.stage == |cfg.order|
    case ReadSize => s.consumer.Resting?
    case GiveUp => s.consumer.Reading?
    case LockForErase(k) => s.consumer.Reading? && k <= s.consumer.n && s.lock.Nobody?
    case EraseNext => s.consumer.Erasing? && s.consumer.done < 3
    case UnlockAfterErase => s.consumer.Erasing? && s.consumer.done == 3
  }

  function Apply(cfg: Config, s: State, step: Step): State
    requires Enabled(cfg, s, step)
  {
    match step
    case Admit(batch) => s.(producer := Admitted(batch))
    case LockForAppend(span) =>
      s.(lock := Producer, producer := Appending(BatchEntries(s.producer.batch, cfg.maxTimeDiff, span), 0))
    case PutNext =>
      var entries, stage := s.producer.entries, s.producer.stage;
      s.(rings := MakePut(cfg, s.rings, entries, cfg.order[stage]), producer := Appending(entries, stage + 1))
    case UnlockAfterAppend => s.(lock := Nobody, producer := Idle, queue := s.queue.Append(s.producer.entries))
    case ReadSize => s.(consumer := Reading(|s.rings.events|, Visible(cfg, s)))
    case GiveUp => s.(consumer := Resting)
    case LockForErase(k) => s.(lock := Consumer, consumer := Erasing(k, 0))
    case EraseNext =>
      var k, done := s.consumer.k, s.consumer.done;
      var next := s.(consumer := Erasing(k, done + 1));
      if done == 0 then next.(rings := s.rings.(dropped := EraseBegin(s.rings.dropped, k)))
      else if done == 1 then next.(rings := s.rings.(spans := EraseBegin(s.rings.spans, k)))
      else next.(rings := s.rings.(events := EraseBegin(s.rings.events, k)), queue := EraseAll(s.queue, k))
    case UnlockAfterErase => s.(lock := Nobody, consumer := Resting)
  }

  /** The puts already made by the batch being appended. */
  function DonePuts(cfg: Config, s: State): seq<Put> {
    if s.producer.Appending? && s.producer.stage <= |cfg.order| then cfg.order[..s.producer.stage] else []
  }

  /** The queue that the rings stand for: a batch is in it from the moment its events are in their ring. */
  function Visible(cfg: Config, s: State): Rings {
    if s.producer.Appending? && PutEvents in DonePuts(cfg, s) then s.queue.Append(s.producer.entries) else s.queue
  }

  /** The part of the current batch in each ring. */
  function Partial(cfg: Config, s: State): Rings {
    if s.producer.Appending? then PutSoFar(s.producer.entries, DonePuts(cfg, s)) else Rings([], [], [])
  }

  /** During an erase the refused counts go first, then the times, then the events. */
  function PartlyErased(q: Rings, k: nat, done: nat): Rings {
    Rings(q.events, if done == 2 then EraseBegin(q.spans, k) else q.spans,
          if 1 <= done <= 2 then EraseBegin(q.dropped, k) else q.dropped)
  }

  /** Mutual exclusion. */
  ghost predicate LockInvariant(s: State) {
    && (s.lock.Producer? <==> s.producer.Appending?)
    && (s.lock.Consumer? <==> s.consumer.Erasing?)
  }

  /** Every ring is the queue with what one of the threads is in the middle of. */
  ghost predicate RingInvariant(cfg: Config, s: State) {
    && s.queue.Aligned()
    && s.rings == if s.consumer.Erasing? then PartlyErased(s.queue, s.consumer.k, s.consumer.done)
                  else s.queue.Append(Partial(cfg, s))
  }

  /** Room seen by the unlocked check is still there when the batch is appended. */
  ghost predicate RoomInvariant(cfg: Config, s: State) {
    match s.producer
    case Idle => true
    case Admitted(batch) => batch != [] && |s.queue.events| + |batch| <= cfg.capacity
    case Appending(entries, stage) =>
      && entries.Aligned() && entries.events != [] && stage <= 4
      && |s.queue.events| + |entries.events| <= cfg.capacity
  }

  /** `seen` is the beginning of `q`. */
  ghost predicate IsPrefix(seen: Rings, q: Rings) {
    seen.Aligned() && seen.events <= q.events && seen.spans <= q.spans && seen.dropped <= q.dropped
  }

  /** A reader has seen the first `n` entries of the queue, and an eraser only erases finished entries. */
  ghost predicate ReaderInvariant(cfg: Config, s: State) {
    match s.consumer
    case Resting => true
    case Reading(n, seen) => |seen.events| == n && IsPrefix(seen, Visible(cfg, s))
    case Erasing(k, done) => done <= 3 && (done < 3 ==> k <= |s.queue.events|)
  }

  ghost predicate Invariant(cfg: Config, s: State) {
    LockInvariant(s) && RingInvariant(cfg, s) && RoomInvariant(cfg, s) && ReaderInvariant(cfg, s)
  }

  lemma InitialInvariant(cfg: Config)
    ensures Invariant(cfg, Initial)
  {}

  lemma NextPut(order: seq<Put>, stage: nat)
    requires IsOrder(order) && stage < 4
    ensures order[..stage + 1] == order[..stage] + [order[stage]] && order[stage] !in order[..stage]
    ensures order[stage] == PutLast ==> PutZeros in order[..stage]
    ensures order[stage] == PutZeros ==> PutLast !in order[..stage]
  {
    if order[stage] == PutLast {
      assert PutZeros in order;
      var i :| 0 <= i < 4 && order[i] == PutZeros;
      assert order[..stage][i] == PutZeros;
    }
  }

  /** A put extends its own ring's part and no other. */
  lemma PutExtends(order: seq<Put>, entries: Rings, stage: nat)
    requires IsOrder(order) && stage < 4
    ensures
      var put := order[stage];
      var before, after := PutSoFar(entries, order[..stage]), PutSoFar(entries, order[..stage + 1]);
      && after.events == before.events + (if put.PutEvents? then entries.events else [])
      && after.spans == before.spans + (if put.PutTimes? then entries.spans else [])
      && after.dropped == before.dropped + (if put.PutZeros? then Zeros(entries)
                                            else if put.PutLast? then Last(entries) else [])
      && |after.events| <= |entries.events| && |after.spans| <= |entries.spans|
      && |after.dropped| <= |entries.dropped|
  {
    NextPut(order, stage);
  }

  lemma Associate<T>(a: seq<T>, b: seq<T>, c: seq<T>)
    ensures (a + b) + c == a + (b + c)
  {}

  /** With room in every ring, a put only adds to its ring: nothing is overwritten. */
  lemma PutOnlyAppends(cfg: Config, q: Rings, entries: Rings, stage: nat)
    requires IsOrder(cfg.order) && stage < 4 && q.Aligned() && entries.Aligned()
    requires |q.events| + |entries.events| <= cfg.capacity
    ensures MakePut(cfg, q.Append(PutSoFar(entries, cfg.order[..stage])), entries, cfg.order[stage])
         == q.Append(PutSoFar(entries, cfg.order[..stage + 1]))
  {
    var part := PutSoFar(entries, cfg.order[..stage]);
    PutExtends(cfg.order, entries, stage);
    hide PutSoFar;
    match cfg.order[stage]
    case PutTimes => Associate(q.spans, part.spans, entries.spans);
    case PutZeros => Associate(q.dropped, part.dropped, Zeros(entries));
    case PutLast => Associate(q.dropped, part.dropped, Last(entries));
    case PutEvents => Associate(q.events, part.events, entries.events);
  }

  lemma PutKeeps(cfg: Config, s: State)
    requires IsOrder(cfg.order) && Invariant(cfg, s) && Enabled(cfg, s, PutNext)
    ensures Invariant(cfg, Apply(cfg, s, PutNext))
  {
    var stage := s.producer.stage;
    PutOnlyAppends(cfg, s.queue, s.producer.entries, stage);
    NextPut(cfg.order, stage);
    hide PutSoFar, MakePut;
  }

  lemma UnlockAfterAppendKeeps(cfg: Config, s: State)
    requires IsOrder(cfg.order) && Invariant(cfg, s) && Enabled(cfg, s, UnlockAfterAppend)
    ensures Invariant(cfg, Apply(cfg, s, UnlockAfterAppend))
  {
    AllPut(cfg.order, s.producer.entries);
  }

  lemma AllPut(order: seq<Put>, entries: Rings)
    requires IsOrder(order)
    ensures order[..4] == order && PutSoFar(entries, order) == entries
  {
    assert Zeros(entries) + Last(entries) == entries.dropped;
  }

  /** Every step of every thread keeps the invariant, whatever the order of the puts. */
  lemma StepKeeps(cfg: Config, s: State, step: Step)
    requires IsOrder(cfg.order) && Invariant(cfg, s) && Enabled(cfg, s, step)
    ensures Invariant(cfg, Apply(cfg, s, step))
  {
    match step
    case PutNext => PutKeeps(cfg, s);
    case UnlockAfterAppend => UnlockAfterAppendKeeps(cfg, s);
    case _ =>
  }

  /** The erase in progress never asks a ring for more entries than it has. */
  lemma EraseWithinRings(cfg: Config, s: State)
    requires Invariant(cfg, s) && Enabled(cfg, s, EraseNext)
    ensures
      var k := s.consumer.k;
      match s.consumer.done
      case 0 => k <= |s.rings.dropped|
      case 1 => k <= |s.rings.spans|
      case _ => k <= |s.rings.events|
  {}

  /** A producer that saw room never overwrites an entry of any ring. */
  lemma PutNeverOverwrites(cfg: Config, s: State)
    requires IsOrder(cfg.order) && Invariant(cfg, s) && Enabled(cfg, s, PutNext)
    ensures
      var after := Apply(cfg, s, PutNext).rings;
      && s.rings.events <= after.events && s.rings.spans <= after.spans && s.rings.dropped <= after.dropped
      && |after.events| <= cfg.capacity && |after.spans| <= cfg.capacity && |after.dropped| <= cfg.capacity
  {
    var stage := s.producer.stage;
    PutOnlyAppends(cfg, s.queue, s.producer.entries, stage);
    PutExtends(cfg.order, s.producer.entries, stage);
    hide PutSoFar, MakePut;
  }

  /** Seen through `Visible`, the threads are an atomic queue: a batch is added whole by one step, a prefix is removed
      whole by one step, a size read takes a snapshot, and nothing else changes the queue. */
  lemma StepRefinesQueue(cfg: Config, s: State, step: Step)
    requires IsOrder(cfg.order) && Invariant(cfg, s) && Enabled(cfg, s, step)
    ensures
      var before, after := Visible(cfg, s), Visible(cfg, Apply(cfg, s, step));
      if step.PutNext? && cfg.order[s.producer.stage].PutEvents? then after == before.Append(s.producer.entries)
      else if step.EraseNext? && s.consumer.done == 2 then
        s.consumer.k <= |before.events| && before.Aligned() && after == before.Drop(s.consumer.k)
      else after == before
    ensures step.ReadSize? ==> Apply(cfg, s, step).consumer == Reading(|Visible(cfg, s).events|, Visible(cfg, s))
  {
    if step.PutNext? {
      NextPut(cfg.order, s.producer.stage);
    } else if step.UnlockAfterAppend? {
      AllPut(cfg.order, s.producer.entries);
      assert PutEvents in cfg.order;
    }
  }

  ghost predicate IsRun(cfg: Config, states: seq<State>, steps: seq<Step>) {
    && |states| == |steps| + 1 && states[0] == Initial
    && forall i | 0 <= i < |steps| ::
         Enabled(cfg, states[i], steps[i]) && states[i + 1] == Apply(cfg, states[i], steps[i])
  }

  lemma {:induction false} RunInvariant(cfg: Config, states: seq<State>, steps: seq<Step>, i: nat)
    requires IsOrder(cfg.order) && IsRun(cfg, states, steps) && i < |states|
    ensures Invariant(cfg, states[i])
  {
    if i == 0 {
      InitialInvariant(cfg);
    } else {
      RunInvariant(cfg, states, steps, i - 1);
      StepKeeps(cfg, states[i - 1], steps[i - 1]);
    }
  }

  /** A reader that read size `n` finds entries 0..n-1 in all three rings, and they are the first `n` entries that the
      queue had when it read the size. */
  ghost predicate ReaderSafe(s: State) {
    s.consumer.Reading? ==>
      var n, r := s.consumer.n, s.rings;
      && n <= |r.events| && n <= |r.spans| && n <= |r.dropped|
      && s.consumer.seen == Rings(r.events[..n], r.spans[..n], r.dropped[..n])
  }

  ghost predicate AlwaysSafe(cfg: Config) {
    forall states, steps | IsRun(cfg, states, steps) :: ReaderSafe(states[|steps|])
  }

  lemma InvariantIsSafe(cfg: Config, s: State)
    requires IsOrder(cfg.order) && cfg.order[3] == PutEvents && Invariant(cfg, s)
    ensures ReaderSafe(s)
  {
    if s.producer.Appending? {
      AllPut(cfg.order, s.producer.entries);
      var stage := s.producer.stage;
      assert PutEvents in cfg.order[..stage] ==> stage == 4;
    }
  }

  lemma ExtendRun(cfg: Config, states: seq<State>, steps: seq<Step>, step: Step)
    requires IsRun(cfg, states, steps) && Enabled(cfg, states[|steps|], step)
    ensures IsRun(cfg, states + [Apply(cfg, states[|steps|], step)], steps + [step])
  {}

  /** A run in which one event has been offered to empty rings and `stage` puts have been made. */
  lemma {:induction false} RunToStage(cfg: Config, event: Event, span: Span, stage: nat)
    returns (states: seq<State>, steps: seq<Step>)
    requires IsOrder(cfg.order) && cfg.capacity > 0 && stage <= 4
    ensures IsRun(cfg, states, steps)
    ensures
      var s := states[|steps|];
      && s.producer == Appending(BatchEntries([event], cfg.maxTimeDiff, span), stage)
      && s.consumer == Resting && s.queue == Rings([], [], [])
  {
    if stage == 0 {
      states, steps := [Initial], [];
      ExtendRun(cfg, states, steps, Admit([event]));
      states, steps := states + [Apply(cfg, states[|steps|], Admit([event]))], steps + [Admit([event])];
      ExtendRun(cfg, states, steps, LockForAppend(span));
      states, steps := states + [Apply(cfg, states[|steps|], LockForAppend(span))], steps + [LockForAppend(span)];
    } else {
      states, steps := RunToStage(cfg, event, span, stage - 1);
      ExtendRun(cfg, states, steps, PutNext);
      states, steps := states + [Apply(cfg, states[|steps|], PutNext)], steps + [PutNext];
    }
  }

  /** If some ring is appended to after the events ring, a size read in between finds that ring short. */
  lemma UnsafeRun(cfg: Config, event: Event, span: Span) returns (states: seq<State>, steps: seq<Step>)
    requires IsOrder(cfg.order) && cfg.capacity > 0 && cfg.order[3] != PutEvents
    ensures IsRun(cfg, states, steps) && !ReaderSafe(states[|steps|])
  {
    states, steps := RunToStage(cfg, event, span, 3);
    RunInvariant(cfg, states, steps, |steps|);
    var s := states[|steps|];
    ExtendRun(cfg, states, steps, ReadSize);
    states, steps := states + [Apply(cfg, s, ReadSize)], steps + [ReadSize];
    FourthIsMissing(cfg.order);
  }

  lemma FourthIsMissing(order: seq<Put>)
    requires IsOrder(order) && order[3] != PutEvents
    ensures order[3] !in order[..3] && PutEvents in order[..3] && (order[3] == PutTimes || order[3] == PutLast)
  {
    NextPut(order, 3);
    assert order == order[..3] + [order[3]];
    assert PutEvents in order && PutLast in order;
  }

  /** The order of the appends is safe exactly when the events ring comes last. */
  lemma OrderSafeIff(cfg: Config)
    requires IsOrder(cfg.order) && cfg.capacity > 0
    ensures AlwaysSafe(cfg) <==> cfg.order[3] == PutEvents
  {
    if cfg.order[3] == PutEvents {
      forall states, steps | IsRun(cfg, states, steps)
        ensures ReaderSafe(states[|steps|])
      {
        RunInvariant(cfg, states, steps, |steps|);
        InvariantIsSafe(cfg, states[|steps|]);
      }
    } else {
      var event := Event(0, 0, 0, 0, 0, 0, seq(32, _ => 0));
      var states, steps := UnsafeRun(cfg, event, (TimeVal(0, 0), TimeVal(0, 0)));
    }
  }

  lemma SourceOrderIsOrder()
    ensures IsOrder(SourceOrder)
  {
    forall put: Put
      ensures put in SourceOrder
    {
      var i := match put case PutTimes => 0 case PutZeros => 1 case PutLast => 2 case PutEvents => 3;
      assert SourceOrder[i] == put;
    }
  }

  /** In particular the original's order is. */
  lemma SourceOrderSafe(capacity: nat, maxTimeDiff: int, states: seq<State>, steps: seq<Step>, i: nat)
    requires IsRun(Config(SourceOrder, capacity, maxTimeDiff), states, steps) && i < |states|
    ensures ReaderSafe(states[i])
  {
    var cfg := Config(SourceOrder, capacity, maxTimeDiff);
    SourceOrderIsOrder();
    RunInvariant(cfg, states, steps, i);
    InvariantIsSafe(cfg, states[i]);
  }
}
