/** Fixed-width integers of the original, written out over unbounded integers. */
module Words {
  const TWO_TO_16: int := 0x1_0000
  const TWO_TO_31: int := 0x8000_0000
  const TWO_TO_32: int := 0x1_0000_0000
  const TWO_TO_64: int := 0x1_0000_0000_0000_0000

  type Octet = x: int | 0 <= x < 256
  type Uint16 = x: int | 0 <= x < TWO_TO_16
  type Uint32 = x: int | 0 <= x < TWO_TO_32
  type Uint64 = x: int | 0 <= x < TWO_TO_64

  /** Conversion to `uint32_t`. */
  function ToUint32(x: int): Uint32 {
    x % TWO_TO_32
  }

  /** Conversion to a 32-bit `int`, two's complement. */
  function ToInt32(x: int): int {
    var m := x % TWO_TO_32;
    if m < TWO_TO_31 then m else m - TWO_TO_32
  }

  lemma ToUint32Plus(x: int, y: int)
    ensures ToUint32(ToUint32(x) + y) == ToUint32(x + y)
  {}

  lemma ToInt32Congruent(x: int) returns (q: int)
    ensures ToInt32(x) == x + q * TWO_TO_32
  {
    q := -(x / TWO_TO_32) - (if x % TWO_TO_32 < TWO_TO_31 then 0 else 1);
  }

  lemma ToUint32Shift(x: int, q: int)
    ensures ToUint32(x + q * TWO_TO_32) == ToUint32(x)
  {}

  lemma ToInt32Shift(x: int, q: int)
    ensures ToInt32(x + q * TWO_TO_32) == ToInt32(x)
  {
    assert (x + q * TWO_TO_32) % TWO_TO_32 == x % TWO_TO_32;
  }

  /** Subtracting two wrapped values recovers the true difference when that fits, however far the operands wrapped. */
  lemma WrappedDifference(x: int, y: int)
    requires -TWO_TO_31 <= x - y < TWO_TO_31
    ensures ToInt32(ToInt32(x) - ToInt32(y)) == x - y
  {
    var p := ToInt32Congruent(x);
    var q := ToInt32Congruent(y);
    assert ToInt32(x) - ToInt32(y) == (x - y) + (p - q) * TWO_TO_32;
    ToInt32Shift(x - y, p - q);
  }
}
