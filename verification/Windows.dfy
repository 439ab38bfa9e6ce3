/** Cutting a span of whole seconds into abutting windows with seconds/nanoseconds carries, and numbering them. */
module Windows {
  import opened Words
  import opened Unwrap

  datatype Clock = Clock(s: int, ns: Uint32)

  /** One carry only, as each step of the loop does. */
  function Carry(c: Clock): Clock {
    if c.ns >= SEC then Clock(c.s + 1, c.ns % SEC) else c
  }

  function Advance(c: Clock, window: Uint32): Clock {
    Clock(c.s, ToUint32(c.ns + window))
  }

  /** Begin of window `k` as it stands at the loop guard, before its carry. */
  function WindowBegin(first: int, window: Uint32, k: nat): Clock {
    if k == 0 then Clock(first, 0) else Advance(Carry(WindowBegin(first, window, k - 1)), window)
  }

  /** End of window `k` as it stands at the loop guard, before its carry. */
  function WindowEnd(first: int, window: Uint32, k: nat): Clock {
    if k == 0 then Clock(first, window) else Advance(Carry(WindowEnd(first, window, k - 1)), window)
  }

  /** Nanoseconds since the first second. */
  function Position(c: Clock, first: int): int {
    (c.s - first) * SEC + c.ns
  }

  /** The clock reading `t` nanoseconds after the first second. */
  function ClockAt(first: int, t: nat): Clock {
    Clock(first + t / SEC, t % SEC)
  }

  /** The exception of `CheckTimeWindow`. */
  predicate WindowInOrder(begin: Clock, end: Clock) {
    begin.s * SEC + begin.ns <= end.s * SEC + end.ns
  }

  /** Consecutive windows abut for every window size. */
  lemma {:induction false} WindowsAbut(first: int, window: Uint32, k: nat)
    ensures WindowEnd(first, window, k) == WindowBegin(first, window, k + 1)
  {
    if k > 0 {
      WindowsAbut(first, window, k - 1);
    }
  }

  lemma {:induction false} BeginCarried(first: int, window: Uint32, k: nat)
    ensures Carry(WindowBegin(first, window, k)).ns < SEC
  {}

  /** A window is in order, for every size, exactly when adding its size does not wrap. */
  lemma WindowInOrderIff(first: int, window: Uint32, k: nat)
    requires window > 0
    ensures WindowInOrder(Carry(WindowBegin(first, window, k)), Carry(WindowEnd(first, window, k)))
        <==> Carry(WindowBegin(first, window, k)).ns + window < TWO_TO_32
  {
    var begin := Carry(WindowBegin(first, window, k));
    BeginCarried(first, window, k);
    WindowsAbut(first, window, k);
    AdvanceInOrderIff(begin, window);
    hide WindowBegin, WindowEnd, WindowInOrder;
  }

  lemma AdvanceInOrderIff(c: Clock, window: Uint32)
    requires window > 0 && c.ns < SEC
    ensures WindowInOrder(c, Carry(Advance(c, window))) <==> c.ns + window < TWO_TO_32
  {}

  /** Each step takes the end of the window into a later second or, within a second, to a later nanosecond, unless it
      wraps. */
  lemma EndMoves(first: int, window: Uint32, k: nat)
    requires window > 0
    ensures
      var end, next := WindowEnd(first, window, k), WindowEnd(first, window, k + 1);
      if end.ns >= SEC then next.s == end.s + 1
      else next.s == end.s
           && (WindowInOrder(Carry(WindowBegin(first, window, k + 1)), Carry(next)) ==> next.ns > end.ns)
  {
    WindowInOrderIff(first, window, k + 1);
    WindowsAbut(first, window, k);
    hide WindowBegin, WindowInOrder;
  }

  lemma {:induction false} BeginExact(first: int, window: Uint32, k: nat)
    requires window <= SEC
    ensures k * window >= 0
    ensures Carry(WindowBegin(first, window, k)) == ClockAt(first, k * window)
    ensures k > 0 ==> (k - 1) * window >= 0 && WindowBegin(first, window, k).s == first + (k - 1) * window / SEC
  {
    if k > 0 {
      BeginExact(first, window, k - 1);
      NextTick(first, (k - 1) * window, window);
      assert k * window == (k - 1) * window + window;
    }
  }

  lemma NextTick(first: int, t: nat, window: Uint32)
    requires window <= SEC
    ensures Carry(Advance(ClockAt(first, t), window)) == ClockAt(first, t + window)
  {
    var ns := t % SEC + window;
    assert t + window == t / SEC * SEC + ns;
  }

  /** For window sizes up to a second, window `k` is exactly [k * window, (k + 1) * window] after the first second;
      the guard reads the whole seconds before it. */
  lemma WindowExact(first: int, window: Uint32, k: nat)
    requires window <= SEC
    ensures k * window >= 0 && (k + 1) * window >= 0
    ensures Carry(WindowBegin(first, window, k)) == ClockAt(first, k * window)
    ensures Carry(WindowEnd(first, window, k)) == ClockAt(first, (k + 1) * window)
    ensures WindowEnd(first, window, k).s == first + k * window / SEC
    ensures WindowInOrder(Carry(WindowBegin(first, window, k)), Carry(WindowEnd(first, window, k)))
  {
    WindowsAbut(first, window, k);
    BeginExact(first, window, k);
    BeginExact(first, window, k + 1);
    assert (k + 1) * window == k * window + window;
    assert k + 1 - 1 == k;
    PositionOfClockAt(first, k * window);
    PositionOfClockAt(first, (k + 1) * window);
  }

  lemma PositionOfClockAt(first: int, t: nat)
    ensures Position(ClockAt(first, t), first) == t
  {}

  lemma LongTick(c: Clock, window: Uint32)
    requires SEC < window < 2 * SEC && c.ns + (window - SEC) < SEC
    ensures Carry(Advance(c, window)) == Clock(c.s + 1, c.ns + (window - SEC))
  {}

  /** Before the first lost second, a window longer than a second gains `window - SEC` nanoseconds per step. */
  lemma {:induction false} BeginOfLongWindow(first: int, window: Uint32, k: nat)
    requires SEC < window < 2 * SEC && k * (window - SEC) < SEC
    ensures Carry(WindowBegin(first, window, k)).s == first + k
    ensures Carry(WindowBegin(first, window, k)).ns == k * (window - SEC)
  {
    if k > 0 {
      assert k * (window - SEC) == (k - 1) * (window - SEC) + (window - SEC);
      BeginOfLongWindow(first, window, k - 1);
      LongTick(Carry(WindowBegin(first, window, k - 1)), window);
    }
  }

  /** The number of steps after which a window longer than a second is first misplaced. */
  function FirstMisplaced(window: Uint32): nat
    requires SEC < window
  {
    if window < 2 * SEC then Quotient(SEC - 1, window - SEC) else 0
  }

  lemma LongWindowMisplacedAt(first: int, window: Uint32, k: nat)
    requires SEC < window < 2 * SEC
    requires k * (window - SEC) < SEC <= k * (window - SEC) + (window - SEC)
    ensures Position(Carry(WindowEnd(first, window, k)), first) < k * SEC + k * (window - SEC) + window
  {
    BeginOfLongWindow(first, window, k);
    WindowsAbut(first, window, k);
    LostSecond(Carry(WindowBegin(first, window, k)), window);
  }

  lemma SplitProduct(k: nat, window: int)
    ensures (k + 1) * window == k * SEC + k * (window - SEC) + window
  {}

  lemma LongWindowMisplaced(first: int, window: Uint32)
    requires SEC < window
    ensures
      var k := FirstMisplaced(window);
      Position(Carry(WindowEnd(first, window, k)), first) < (k + 1) * window
  {
    var k := FirstMisplaced(window);
    if window < 2 * SEC {
      DivisionBounds(SEC - 1, window - SEC);
      LongWindowMisplacedAt(first, window, k);
      SplitProduct(k, window);
    }
  }

  lemma LostSecond(c: Clock, window: Uint32)
    requires SEC < window < 2 * SEC && c.ns < SEC <= c.ns + (window - SEC)
    ensures Position(Carry(Advance(c, window)), 0) < Position(c, 0) + window
  {}

  function Quotient(a: nat, d: nat): nat
    requires d > 0
  {
    a / d
  }

  lemma DivisionBounds(a: int, d: int)
    requires a >= 0 && d > 0
    ensures a / d >= 0 && a / d * d <= a < a / d * d + d
  {
    assert a == a / d * d + a % d;
  }

  /** Windows stay in place for every span exactly when the window is at most one second. The configuration check
      only refuses windows below a millisecond. */
  lemma WindowsExactIff(first: int, window: Uint32)
    ensures (forall k: nat :: Position(Carry(WindowEnd(first, window, k)), first) == (k + 1) * window)
        <==> window <= SEC
  {
    if window <= SEC {
      forall k: nat
        ensures Position(Carry(WindowEnd(first, window, k)), first) == (k + 1) * window
      {
        WindowExact(first, window, k);
        PositionOfClockAt(first, (k + 1) * window);
      }
    } else {
      LongWindowMisplaced(first, window);
    }
  }

  /** How many windows the loop makes for a span of `span` whole seconds. */
  function WindowCount(span: int, window: Uint32): nat
    requires window > 0
  {
    if span <= 0 then 0 else RoundUp(span * SEC, window)
  }

  function RoundUp(a: nat, d: nat): nat
    requires d > 0
  {
    (a + d - 1) / d
  }

  /** The guard admits window `k` exactly while it begins inside the span. */
  lemma CountGuard(span: int, window: Uint32, k: nat)
    requires window > 0
    ensures k < WindowCount(span, window) <==> k * window < span * SEC
  {
    if span > 0 {
      var n := WindowCount(span, window);
      DivisionBounds(span * SEC + window - 1, window);
      if k < n {
        assert (k + 1) * window <= n * window by {
          MulMonotone(k + 1, n, window);
        }
      } else {
        MulMonotone(n, k, window);
      }
      assert (k + 1) * window == k * window + window;
    } else {
      MulMonotone(0, k, window);
    }
  }

  lemma MulMonotone(a: int, b: int, d: int)
    requires a <= b && d >= 0
    ensures a * d <= b * d
  {}

  /** The last window ends at or after the last second, and exactly on it when the window divides the span. */
  lemma LastWindowEnd(span: nat, window: Uint32)
    requires window > 0
    ensures span * SEC <= WindowCount(span, window) * window < span * SEC + window
    ensures WindowCount(span, window) * window == span * SEC <==> span * SEC % window == 0
  {
    var n := WindowCount(span, window);
    var total := span * SEC;
    if span > 0 {
      DivisionBounds(total + window - 1, window);
    }
    DivisionBounds(total, window);
    if total % window == 0 {
      MultiplesApart(n, total / window, window);
    } else if n * window == total {
      MultipleRemainder(n, window);
    }
  }

  lemma MulStrict(a: int, b: int, d: int)
    requires d > 0
    ensures a < b ==> a * d + d <= b * d
  {
    if a < b {
      MulMonotone(a + 1, b, d);
      assert (a + 1) * d == a * d + d;
    }
  }

  lemma MultiplesApart(a: int, b: int, d: int)
    requires d > 0 && b * d <= a * d < b * d + d
    ensures a == b
  {
    MulStrict(a, b, d);
    MulStrict(b, a, d);
  }

  lemma MultipleRemainder(a: nat, d: nat)
    requires d > 0
    ensures a * d % d == 0
  {
    DivisionBounds(a * d, d);
    MultiplesApart(a, a * d / d, d);
  }
}
