/** Numbering of windows by milliseconds since a base second that all boards share. */
module SequenceIds {
  import opened Words
  import opened Unwrap
  import opened Windows
  import opened Divisors

  const MS: int := 1_000_000

  /** The base is fixed by the first fragment ever built, ten seconds before its first window. */
  function SharedBase(base: Uint32, firstSec: int): Uint32 {
    if base == 0 then ToUint32(firstSec - 10) else base
  }

  function SequenceId(begin: Clock, base: Uint32): Uint32 {
    ToUint32(ToUint32(ToUint32(begin.s - base) * 1000) + begin.ns / MS)
  }

  /** Milliseconds from the base to `t` nanoseconds after the first second. */
  function Millis(first: int, base: int, t: nat): int {
    (first - base) * 1000 + t / MS
  }

  lemma ToUint32Absorbs(a: int, b: int, c: int)
    ensures ToUint32(ToUint32(ToUint32(a) * b) + c) == ToUint32(a * b + c)
  {
    var q := a / TWO_TO_32;
    assert ToUint32(a) * b == a * b + (-q * b) * TWO_TO_32;
    assert ToUint32(ToUint32(a) * b) == ToUint32(a * b) by {
      ToUint32Shift(a * b, -q * b);
    }
    var p := a * b / TWO_TO_32;
    assert ToUint32(a * b) + c == a * b + c + (-p) * TWO_TO_32;
    ToUint32Shift(a * b + c, -p);
  }

  /** The id is the whole number of milliseconds since the base, modulo 2^32. */
  lemma SequenceIdIsMillis(first: int, base: Uint32, t: nat)
    ensures SequenceId(ClockAt(first, t), base) == ToUint32(Millis(first, base, t))
  {
    ToUint32Absorbs(first + t / SEC - base, 1000, t % SEC / MS);
    assert t / MS == t / SEC * 1000 + t % SEC / MS;
  }

  /** Ids of consecutive windows grow exactly when no multiple of 2^32 milliseconds (49.7 days) after the base
      falls between them. */
  lemma SequenceIdsIncreaseIff(first: int, base: Uint32, window: Uint32, k: nat)
    requires MS <= window <= SEC
    ensures k * window >= 0 && (k + 1) * window >= 0
    ensures
      var m, n := Millis(first, base, k * window), Millis(first, base, (k + 1) * window);
      var id, next := SequenceId(Carry(WindowBegin(first, window, k)), base),
                      SequenceId(Carry(WindowBegin(first, window, k + 1)), base);
      && m < n
      && (id < next <==> m / TWO_TO_32 == n / TWO_TO_32)
  {
    BeginExact(first, window, k);
    BeginExact(first, window, k + 1);
    var t, u := k * window, (k + 1) * window;
    assert u == t + window;
    SequenceIdIsMillis(first, base, t);
    SequenceIdIsMillis(first, base, u);
    SameEpoch(Millis(first, base, t), Millis(first, base, u));
  }

  lemma SameEpoch(m: int, n: int)
    requires m < n < m + TWO_TO_32
    ensures ToUint32(m) < ToUint32(n) <==> m / TWO_TO_32 == n / TWO_TO_32
  {}

  /** Both windows begin in the same epoch of 2^32 milliseconds after the base. */
  predicate SameEpochOfBase(first: int, other: int, base: Uint32, window: Uint32, j: nat, k: nat) {
    Millis(first, base, Offset(window, j)) / TWO_TO_32 == Millis(other, base, Offset(window, k)) / TWO_TO_32
  }

  /** Nanoseconds from the first second to the begin of window `k`. */
  function Offset(window: Uint32, k: nat): (t: nat) {
    MulMonotone(0, k, window);
    k * window
  }

  function BeginOf(first: int, window: Uint32, k: nat): Clock {
    Carry(WindowBegin(first, window, k))
  }

  /** The ids of two windows tell whether they begin at the same time. */
  predicate IdsTell(first: int, other: int, base: Uint32, window: Uint32, j: nat, k: nat) {
    (SequenceId(BeginOf(first, window, j), base) == SequenceId(BeginOf(other, window, k), base))
    <==> (BeginOf(first, window, j) == BeginOf(other, window, k))
  }

  /** In one epoch, equal ids mean the same whole millisecond. */
  lemma SameIdIffSameMillisecond(first: int, other: int, base: Uint32, window: Uint32, j: nat, k: nat)
    requires window <= SEC && SameEpochOfBase(first, other, base, window, j, k)
    ensures
      var t, u := first * SEC + Offset(window, j), other * SEC + Offset(window, k);
      && (SequenceId(BeginOf(first, window, j), base) == SequenceId(BeginOf(other, window, k), base)
          <==> t / MS == u / MS)
      && (BeginOf(first, window, j) == BeginOf(other, window, k) <==> t == u)
  {
    var t, u := Offset(window, j), Offset(window, k);
    BeginExact(first, window, j);
    BeginExact(other, window, k);
    SequenceIdIsMillis(first, base, t);
    SequenceIdIsMillis(other, base, u);
    Milliseconds(first, base, t);
    Milliseconds(other, base, u);
    hide SequenceId, WindowBegin, Millis;
  }

  lemma Milliseconds(first: int, base: int, t: nat)
    ensures Millis(first, base, t) == (first * SEC + t) / MS - base * 1000
    ensures ClockAt(first, t) == Clock((first * SEC + t) / SEC, (first * SEC + t) % SEC)
  {
    assert (first * 1000 * MS + t) / MS == first * 1000 + t / MS;
    assert (first * SEC + t) / SEC == first + t / SEC;
  }

  /** Multiples of a number of at least a millisecond differ in whole milliseconds. */
  lemma CoarseMultiples(m: int, n: int, g: int)
    requires g >= MS
    ensures m * g / MS == n * g / MS <==> m == n
  {
    if m < n {
      MulStrict(m, n, g);
    } else if n < m {
      MulStrict(n, m, g);
    }
  }

  /** When the window and the second have a common divisor of a millisecond or more, windows of any two boards in one
      epoch carry the same id exactly when they begin at the same time. */
  lemma SameIdIffSameBegin(first: int, other: int, base: Uint32, window: Uint32, j: nat, k: nat)
    requires 0 < window <= SEC && Gcd(SEC, window) >= MS && SameEpochOfBase(first, other, base, window, j, k)
    ensures IdsTell(first, other, base, window, j, k)
  {
    SameIdIffSameMillisecond(first, other, base, window, j, k);
    var g := Gcd(SEC, window);
    var q, p := GcdDivides(SEC, window);
    hide Gcd, SequenceId, BeginOf, SameEpochOfBase;
    CommonMultiple(first, j, q, p, g, window);
    CommonMultiple(other, k, q, p, g, window);
    CoarseMultiples(first * q + j * p, other * q + k * p, g);
  }

  lemma CommonMultiple(first: int, j: nat, q: int, p: int, g: int, window: Uint32)
    requires SEC == q * g && window == p * g
    ensures first * SEC + Offset(window, j) == (first * q + j * p) * g
  {
    assert first * (q * g) == first * q * g;
    assert j * (p * g) == j * p * g;
  }

  /** Ids of windows in one epoch of any base always tell whether the windows begin at the same time. */
  ghost predicate IdsAlwaysTell(window: Uint32) {
    forall first: Uint32, other: Uint32, base: Uint32, j: nat, k: nat ::
      SameEpochOfBase(first, other, base, window, j, k) ==> IdsTell(first, other, base, window, j, k)
  }

  /** A second and a window after it that begin `g` nanoseconds apart. */
  lemma ReachGcd(window: Uint32) returns (first: Uint32, j: nat)
    requires 0 < window <= SEC
    ensures first * SEC + Offset(window, j) == SEC * SEC + Gcd(SEC, window)
  {
    var x, y := Bezout(SEC, window);
    var g := Gcd(SEC, window);
    j := y % SEC;
    var q := y / SEC;
    var z := x + window * q;
    assert y == q * SEC + j;
    assert y * window == window * q * SEC + j * window by {
      assert (q * SEC + j) * window == q * SEC * window + j * window;
    }
    assert z * SEC == x * SEC + window * q * SEC;
    assert z * SEC + j * window == g;
    MulMonotone(0, j, window);
    MulMonotone(j, SEC, window);
    GcdSmall(window);
    first := SEC + z;
  }

  lemma GcdSmall(window: Uint32)
    requires 0 < window <= SEC
    ensures Gcd(SEC, window) <= window
  {
    var p, q := GcdDivides(SEC, window);
    if q >= 1 {
      MulMonotone(1, q, Gcd(SEC, window));
    } else {
      MulMonotone(q, 0, Gcd(SEC, window));
    }
  }

  /** When they have no such divisor, two windows of one epoch begin at different times within one millisecond. */
  lemma IdsCollide(window: Uint32) returns (first: Uint32, j: nat)
    requires 0 < window <= SEC && Gcd(SEC, window) < MS
    ensures SameEpochOfBase(first, SEC, SEC, window, j, 0) && !IdsTell(first, SEC, SEC, window, j, 0)
  {
    first, j := ReachGcd(window);
    var g := Gcd(SEC, window);
    Milliseconds(first, SEC, Offset(window, j));
    Milliseconds(SEC, SEC, 0);
    assert (SEC * SEC + g) / MS == SEC * 1000;
    SameIdIffSameMillisecond(first, SEC, SEC, window, j, 0);
    hide Gcd, SequenceId, BeginOf, Millis;
  }

  /** So ids tell begins exactly when the window and the second have a common divisor of a millisecond or more. */
  lemma IdsAlwaysTellIff(window: Uint32)
    requires 0 < window <= SEC
    ensures IdsAlwaysTell(window) <==> Gcd(SEC, window) >= MS
  {
    hide Gcd, IdsTell, SameEpochOfBase;
    if Gcd(SEC, window) >= MS {
      forall first: Uint32, other: Uint32, base: Uint32, j: nat, k: nat
        | SameEpochOfBase(first, other, base, window, j, k)
        ensures IdsTell(first, other, base, window, j, k)
      {
        SameIdIffSameBegin(first, other, base, window, j, k);
      }
    } else {
      var first, j := IdsCollide(window);
    }
  }

  lemma CollidingAt(first: int, window: Uint32, j: nat)
    requires first == 100 && window == 1_500_000 && j == 667
    ensures SameEpochOfBase(first, first + 1, 90, window, j, 0) && !IdsTell(first, first + 1, 90, window, j, 0)
  {
    hide SequenceId, BeginOf;
    assert Offset(window, j) == 1_000_500_000 && Offset(window, 0) == 0;
    SameIdIffSameMillisecond(first, first + 1, 90, window, j, 0);
  }

  /** An accepted window size whose ids do not tell: 1.5 ms, window 667 after second 100 and window 0 after second
      101. */
  lemma CollidingIds()
    ensures SameEpochOfBase(100, 101, 90, 1_500_000, 667, 0) && !IdsTell(100, 101, 90, 1_500_000, 667, 0)
  {
    hide SameEpochOfBase, IdsTell;
    CollidingAt(100, 1_500_000, 667);
  }
}
