/** Machine words as sequences of bits, most significant bit first. */
module Bits {

  function Pow2(k: nat): (p: nat)
    ensures p >= 1
  {
    if k == 0 then 1 else 2 * Pow2(k - 1)
  }

  function Value(bits: seq<bool>): (n: nat)
    ensures n < Pow2(|bits|)
  {
    if bits == [] then 0
    else 2 * Value(bits[..|bits| - 1]) + (if bits[|bits| - 1] then 1 else 0)
  }

  /** The low `width` bits of a number. */
  function Of(n: nat, width: nat): (bits: seq<bool>)
    ensures |bits| == width
  {
    if width == 0 then [] else Of(n / 2, width - 1) + [n % 2 == 1]
  }

  function Zeros(k: nat): (bits: seq<bool>)
    ensures |bits| == k
  {
    seq(k, _ => false)
  }

  lemma {:induction false} ValueOf(n: nat, width: nat)
    requires n < Pow2(width)
    ensures Value(Of(n, width)) == n
  {
    if width > 0 {
      ValueOf(n / 2, width - 1);
      assert Of(n, width)[..width - 1] == Of(n / 2, width - 1);
    }
  }

  lemma {:induction false} OfValue(bits: seq<bool>)
    ensures Of(Value(bits), |bits|) == bits
  {
    if bits != [] {
      OfValue(bits[..|bits| - 1]);
      assert Value(bits) / 2 == Value(bits[..|bits| - 1]);
    }
  }

  /** A number split at its top bit. */
  lemma {:induction false} TopBit(bits: seq<bool>)
    requires bits != []
    ensures Value(bits) == (if bits[0] then Pow2(|bits| - 1) else 0) + Value(bits[1..])
  {
    if |bits| > 1 {
      var front := bits[..|bits| - 1];
      TopBit(front);
      assert bits[1..][..|bits| - 2] == front[1..];
    }
  }

  /** Doubling moves the top bit out of the register. */
  lemma Doubled(bits: seq<bool>)
    requires bits != []
    ensures 2 * Value(bits) == (if bits[0] then Pow2(|bits|) else 0) + Value(bits[1..] + [false])
  {
    TopBit(bits);
    assert (bits[1..] + [false])[..|bits| - 1] == bits[1..];
  }

  lemma TopBitSet(bits: seq<bool>)
    requires bits != []
    ensures bits[0] <==> Value(bits) >= Pow2(|bits| - 1)
  {
    TopBit(bits);
    hide Value, Pow2;
  }

  lemma {:induction false} LeadingZeros(k: nat, bits: seq<bool>)
    ensures Value(Zeros(k) + bits) == Value(bits)
  {
    if k == 0 {
      assert Zeros(0) + bits == bits;
    } else {
      var all := Zeros(k) + bits;
      TopBit(all);
      assert all[1..] == Zeros(k - 1) + bits;
      LeadingZeros(k - 1, bits);
    }
  }

  function ShiftedRight(n: nat, k: nat): nat {
    if k == 0 then n else ShiftedRight(n / 2, k - 1)
  }

  /** Shifting right drops low bits. */
  lemma {:induction false} DropLow(bits: seq<bool>, k: nat)
    requires k <= |bits|
    ensures ShiftedRight(Value(bits), k) == Value(bits[..|bits| - k])
  {
    if k == 0 {
      assert bits[..|bits|] == bits;
    } else {
      var front := bits[..|bits| - 1];
      DropLow(front, k - 1);
      assert front[..|front| - (k - 1)] == bits[..|bits| - k];
    }
  }

  lemma ShiftRight(n: nat, k: nat, width: nat)
    requires k <= width && n < Pow2(width)
    ensures Of(ShiftedRight(n, k), width) == Zeros(k) + Of(n, width)[..width - k]
    ensures ShiftedRight(n, k) < Pow2(width)
  {
    var bits := Of(n, width);
    ValueOf(n, width);
    DropLow(bits, k);
    LeadingZeros(k, bits[..width - k]);
    OfValue(Zeros(k) + bits[..width - k]);
    ValueBound(bits[..width - k], width);
  }

  /** Bitwise exclusive or of words of one width. */
  function Xor(x: nat, y: nat, width: nat): (z: nat)
    ensures z < Pow2(width)
  {
    Value(seq(width, i requires 0 <= i < width => Of(x, width)[i] != Of(y, width)[i]))
  }

  lemma {:induction false} Pow2Monotone(j: nat, k: nat)
    requires j <= k
    ensures Pow2(j) <= Pow2(k)
  {
    if j < k {
      Pow2Monotone(j, k - 1);
    }
  }

  lemma ValueBound(bits: seq<bool>, width: nat)
    requires |bits| <= width
    ensures Value(bits) < Pow2(width)
  {
    Pow2Monotone(|bits|, width);
  }
}
