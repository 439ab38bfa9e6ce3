/** The two decoders for Gray-coded timestamps: the ripple decoder of the driver and the log-shift decoder of the
    event overlay. */
module Gray {
  import opened Words
  import opened Bits

  /** Exclusive or of a register with itself shifted right by `k`. */
  function Fold(bits: seq<bool>, k: nat): (folded: seq<bool>)
    ensures |folded| == |bits|
  {
    seq(|bits|, i requires 0 <= i < |bits| => bits[i] != (i >= k && bits[i - k]))
  }

  /** Gray code. */
  function Encode(bits: seq<bool>): (code: seq<bool>)
    ensures |code| == |bits|
  {
    Fold(bits, 1)
  }

  /** Exclusive or of a register of at most 32 bits with all its right shifts, in five steps. */
  function Decode(code: seq<bool>): (bits: seq<bool>)
    ensures |bits| == |code|
  {
    Fold(Fold(Fold(Fold(Fold(code, 16), 8), 4), 2), 1)
  }

  /** Folding twice by one distance is folding once by twice the distance. */
  lemma FoldTwice(bits: seq<bool>, k: nat)
    ensures Fold(Fold(bits, k), k) == Fold(bits, 2 * k)
  {}

  lemma FoldCommutes(bits: seq<bool>, j: nat, k: nat)
    ensures Fold(Fold(bits, j), k) == Fold(Fold(bits, k), j)
  {}

  /** Decoding and encoding are inverse to each other on all registers of up to 32 bits. */
  lemma EncodeDecode(code: seq<bool>)
    requires |code| <= 32
    ensures Encode(Decode(code)) == code
  {
    assert Fold(code, 32) == code;
    FoldTwice(Fold(Fold(Fold(Fold(code, 16), 8), 4), 2), 1);
    FoldTwice(Fold(Fold(Fold(code, 16), 8), 4), 2);
    FoldTwice(Fold(Fold(code, 16), 8), 4);
    FoldTwice(Fold(code, 16), 8);
    FoldTwice(code, 16);
    hide Fold;
  }

  lemma DecodeEncode(bits: seq<bool>)
    requires |bits| <= 32
    ensures Decode(Encode(bits)) == bits
  {
    EncodeDecode(bits);
    FoldCommutes(bits, 1, 16);
    FoldCommutes(Fold(bits, 16), 1, 8);
    FoldCommutes(Fold(Fold(bits, 16), 8), 1, 4);
    FoldCommutes(Fold(Fold(Fold(bits, 16), 8), 4), 1, 2);
    hide Fold;
  }

  /** The two codecs on 32-bit words. */
  function EncodeWord(n: Uint32): (code: Uint32) {
    WordOfBits(Encode(Of(n, 32)));
    Value(Encode(Of(n, 32)))
  }

  function DecodeWord(code: Uint32): (n: Uint32) {
    WordOfBits(Decode(Of(code, 32)));
    Value(Decode(Of(code, 32)))
  }

  lemma WordWidth()
    ensures Pow2(32) == TWO_TO_32 && Pow2(31) == TWO_TO_31
  {
    assert Pow2(8) == 256;
    assert Pow2(16) == TWO_TO_16;
    assert Pow2(24) == 256 * TWO_TO_16;
  }

  lemma WordModulo(n: nat, x: Uint32, carry: bool)
    requires 2 * n == (if carry then TWO_TO_32 else 0) + x
    ensures n * 2 % TWO_TO_32 == x
  {}

  /** The register after `i` shifts to the left. */
  function Shifted(code: seq<bool>, i: nat): seq<bool>
    requires i <= |code|
  {
    code[i..] + Zeros(i)
  }

  lemma ShiftedByNone(code: seq<bool>)
    ensures Shifted(code, 0) == code
  {}

  /** One step of the decoder's first loop: the top bit is read and shifted out of the register. */
  lemma ShiftLeft(code: seq<bool>, i: nat)
    requires |code| == 32 && i < 32
    ensures code[i] <==> Value(Shifted(code, i)) >= TWO_TO_31
    ensures Value(Shifted(code, i)) * 2 % TWO_TO_32 == Value(Shifted(code, i + 1))
  {
    var bits := Shifted(code, i);
    assert bits[1..] + [false] == Shifted(code, i + 1);
    WordWidth();
    TopBitSet(bits);
    Doubled(bits);
    ValueBound(Shifted(code, i + 1), 32);
    hide Value, Pow2, Shifted;
    WordModulo(Value(bits), Value(Shifted(code, i + 1)), bits[0]);
  }

  /** The driver's decoder: bits from the top, each flipped if the previous result bit is set. */
  method GrayToBin(word: Uint32) returns (res: Uint32)
    ensures res == DecodeWord(word)
  {
    ghost var code := Of(word, 32);
    var a := ReadBits(word);
    var b := new int[32];
    Ripple(a, b, code);
    res := Assemble(b, Decode(code));
  }

  /** First loop of the decoder. */
  method ReadBits(word: Uint32) returns (a: array<int>)
    ensures fresh(a) && a.Length == 32
    ensures forall j | 0 <= j < 32 :: a[j] == if Of(word, 32)[j] then 1 else 0
  {
    hide Of, Value, Shifted;
    var n: int := word;
    ghost var code := Of(word, 32);
    BitsOfWord(word);
    ShiftedByNone(code);
    a := new int[32];
    for i := 0 to 32
      invariant n == Value(Shifted(code, i))
      invariant forall j | 0 <= j < i :: a[j] == if code[j] then 1 else 0
    {
      ShiftLeft(code, i);
      a[i] := if n >= TWO_TO_31 then 1 else 0;
      n := n * 2 % TWO_TO_32;
    }
  }

  lemma CodeBit(code: seq<bool>, i: nat)
    requires i < |code| <= 32
    ensures code[i] == (Decode(code)[i] != (i > 0 && Decode(code)[i - 1]))
  {
    var bin := Decode(code);
    EncodeDecode(code);
    assert Encode(bin)[i] == (bin[i] != (i >= 1 && bin[i - 1]));
    hide Decode;
  }

  /** Second loop of the decoder. */
  method Ripple(a: array<int>, b: array<int>, ghost code: seq<bool>)
    requires a.Length == b.Length == |code| == 32 && a != b
    requires forall j | 0 <= j < 32 :: a[j] == if code[j] then 1 else 0
    modifies b
    ensures forall j | 0 <= j < 32 :: b[j] == if Decode(code)[j] then 1 else 0
  {
    hide Decode;
    ghost var bin := Decode(code);
    CodeBit(code, 0);
    b[0] := a[0];
    for i := 1 to 32
      invariant forall j | 0 <= j < i :: b[j] == if bin[j] then 1 else 0
    {
      CodeBit(code, i);
      if a[i] > 0 {
        b[i] := if b[i - 1] == 0 then 1 else 0;
      } else {
        b[i] := b[i - 1];
      }
    }
  }

  /** Third loop of the decoder. */
  method Assemble(b: array<int>, ghost bin: seq<bool>) returns (res: Uint32)
    requires b.Length == |bin| == 32
    requires forall j | 0 <= j < 32 :: b[j] == if bin[j] then 1 else 0
    ensures res == Value(bin)
  {
    WordWidth();
    res := 0;
    assert bin[..0] == [];
    for i := 0 to 32
      invariant res == Value(bin[..i])
    {
      assert bin[..i + 1][..i] == bin[..i];
      ValueBound(bin[..i + 1], 32);
      res := res * 2;
      res := res + b[i];
    }
    assert bin[..32] == bin;
  }

  /** `n ^ (n >> k)` is a fold. */
  lemma XorShift(n: nat, k: nat, width: nat)
    requires k <= width && n < Pow2(width)
    ensures Of(Xor(n, ShiftedRight(n, k), width), width) == Fold(Of(n, width), k)
  {
    ShiftRight(n, k, width);
    hide ShiftedRight, Of, Value, Pow2;
    var m := ShiftedRight(n, k);
    var x := seq(width, i requires 0 <= i < width => Of(n, width)[i] != Of(m, width)[i]);
    assert x == Fold(Of(n, width), k);
    OfValue(x);
  }

  lemma WordOfBits(bits: seq<bool>)
    requires |bits| == 32
    ensures Value(bits) < TWO_TO_32 && Of(Value(bits), 32) == bits
  {
    WordWidth();
    OfValue(bits);
    hide Pow2, Value, Of;
  }

  lemma BitsOfWord(n: Uint32)
    ensures Value(Of(n, 32)) == n
  {
    WordWidth();
    ValueOf(n, 32);
    hide Pow2, Value, Of;
  }

  lemma XorValue(x: nat, y: nat)
    ensures Value(Of(Xor(x, y, 32), 32)) == Xor(x, y, 32)
  {
    ValueOf(Xor(x, y, 32), 32);
    hide Xor, Value, Of, Pow2;
  }

  /** `EncodeWord` is the textbook code, and the two word codecs are inverse to each other. */
  lemma WordCodec(n: Uint32)
    ensures EncodeWord(n) == Xor(n, ShiftedRight(n, 1), 32)
    ensures DecodeWord(EncodeWord(n)) == n
    ensures EncodeWord(DecodeWord(n)) == n
  {
    hide Decode, Fold, Xor, Value, Of, Pow2, ShiftedRight;
    WordWidth();
    var bits := Of(n, 32);
    BitsOfWord(n);
    XorShift(n, 1, 32);
    XorValue(n, ShiftedRight(n, 1));
    WordOfBits(Encode(bits));
    WordOfBits(Decode(bits));
    DecodeEncode(bits);
    EncodeDecode(bits);
  }

  /** A raw timestamp: 28 Gray-coded bits and two plain ones; the two flag bits above them are ignored. */
  function Timestamp(raw: Uint32): (t: nat) {
    4 * DecodeWord(raw % 0x4000_0000 / 4) + raw % 4
  }

  /** What the decoders still have to do before the step with shift distance 2^i. */
  function Rest(bits: seq<bool>, i: int): seq<bool> {
    match i
    case 4 => Decode(bits)
    case 3 => Fold(Fold(Fold(Fold(bits, 8), 4), 2), 1)
    case 2 => Fold(Fold(Fold(bits, 4), 2), 1)
    case 1 => Fold(Fold(bits, 2), 1)
    case 0 => Fold(bits, 1)
    case _ => bits
  }

  lemma RestStep(bits: seq<bool>, i: nat)
    requires i <= 4
    ensures Rest(Fold(bits, Pow2(i)), i - 1) == Rest(bits, i)
  {
    assert Pow2(0) == 1 && Pow2(1) == 2 && Pow2(2) == 4 && Pow2(3) == 8 && Pow2(4) == 16;
    hide Fold;
  }

  lemma StepOfTime(temp: Uint32, i: nat)
    requires i <= 4
    ensures Pow2(i) <= 32
    ensures Of(Xor(temp, ShiftedRight(temp, Pow2(i)), 32), 32) == Fold(Of(temp, 32), Pow2(i))
    ensures Xor(temp, ShiftedRight(temp, Pow2(i)), 32) < TWO_TO_32
  {
    WordWidth();
    Pow2Monotone(i, 5);
    assert Pow2(5) == 32;
    XorShift(temp, Pow2(i), 32);
    hide Xor, ShiftedRight, Of, Pow2, Fold;
  }

  /** The loop of the overlay's decoder: five steps with shift distances 16, 8, 4, 2 and 1. */
  method FiveSteps(code: Uint32) returns (temp: Uint32)
    ensures temp == DecodeWord(code)
  {
    hide Decode, Fold, Of, Xor, ShiftedRight, Value, Pow2;
    temp := code;
    var i := 4;
    while i >= 0
      invariant -1 <= i <= 4
      invariant Rest(Of(temp, 32), i) == Decode(Of(code, 32))
    {
      StepOfTime(temp, i);
      RestStep(Of(temp, 32), i);
      temp := Xor(temp, ShiftedRight(temp, Pow2(i)), 32);
      i := i - 1;
    }
    BitsOfWord(temp);
  }

  lemma FieldShift(bin: nat)
    requires bin < 0x1000_0000
    ensures bin * 4 % TWO_TO_32 == 4 * bin
  {}

  /** The overlay's decoder. */
  method Time(raw: Uint32) returns (t: Uint32)
    ensures t == Timestamp(raw)
  {
    hide DecodeWord, EncodeWord;
    var rawtime := raw % 0x4000_0000;
    var temp := FiveSteps(rawtime / 4);
    FieldWidth(rawtime / 4);
    FieldShift(temp);
    LowBits(raw);
    t := temp * 4 % TWO_TO_32 + rawtime % 4;
  }

  lemma LowBits(raw: Uint32)
    ensures raw % 0x4000_0000 % 4 == raw % 4
  {}

  lemma FoldKeepsZeros(code: seq<bool>, z: nat, k: nat)
    requires z <= |code| && code[..z] == Zeros(z)
    ensures Fold(code, k)[..z] == Zeros(z)
  {
    assert forall j | 0 <= j < z :: code[j] == code[..z][j];
  }

  lemma DecodeKeepsZeros(code: seq<bool>, z: nat)
    requires z <= |code| && code[..z] == Zeros(z)
    ensures Decode(code)[..z] == Zeros(z)
  {
    FoldKeepsZeros(code, z, 16);
    FoldKeepsZeros(Fold(code, 16), z, 8);
    FoldKeepsZeros(Fold(Fold(code, 16), 8), z, 4);
    FoldKeepsZeros(Fold(Fold(Fold(code, 16), 8), 4), z, 2);
    FoldKeepsZeros(Fold(Fold(Fold(Fold(code, 16), 8), 4), 2), z, 1);
    hide Fold;
  }

  lemma Widen(n: nat, width: nat, z: nat)
    requires n < Pow2(width)
    ensures Of(n, z + width) == Zeros(z) + Of(n, width)
  {
    hide Of, Value, Zeros, Pow2;
    ValueOf(n, width);
    LeadingZeros(z, Of(n, width));
    OfValue(Zeros(z) + Of(n, width));
  }

  lemma Narrow(bits: seq<bool>, z: nat)
    requires z <= |bits| && bits[..z] == Zeros(z)
    ensures Value(bits) < Pow2(|bits| - z)
  {
    hide Value, Zeros, Pow2;
    assert bits == Zeros(z) + bits[z..];
    LeadingZeros(z, bits[z..]);
  }

  /** A 28-bit field decodes to a 28-bit field. */
  lemma FieldWidth(n: nat)
    requires n < 0x1000_0000
    ensures DecodeWord(n) < 0x1000_0000 && EncodeWord(n) < 0x1000_0000
  {
    assert Pow2(28) == 0x1000_0000 by {
      assert Pow2(8) == 256;
      assert Pow2(16) == TWO_TO_16;
    }
    Widen(n, 28, 4);
    assert Of(n, 32)[..4] == Zeros(4);
    DecodeKeepsZeros(Of(n, 32), 4);
    FoldKeepsZeros(Of(n, 32), 4, 1);
    Narrow(Decode(Of(n, 32)), 4);
    Narrow(Encode(Of(n, 32)), 4);
    hide Of, Decode, Value, Pow2, Zeros;
  }

  /** The driver adds a phase offset of 5, so its times lie in 5..2^30 + 4. */
  lemma TimestampRange(raw: Uint32)
    ensures Timestamp(raw) < 0x4000_0000
  {
    FieldWidth(raw % 0x4000_0000 / 4);
    hide DecodeWord;
  }

  function EncodeTimestamp(t: nat): (raw: nat)
    requires t < 0x4000_0000
    ensures raw < 0x4000_0000
  {
    FieldWidth(t / 4);
    4 * EncodeWord(t / 4) + t % 4
  }

  lemma RawFields(code: nat, low: nat, flags: nat)
    requires code < 0x1000_0000 && low < 4 && flags < 4
    ensures
      var raw := 4 * code + low + 0x4000_0000 * flags;
      raw < TWO_TO_32 && raw % 4 == low && raw % 0x4000_0000 / 4 == code
  {
    var raw, w := 4 * code + low + 0x4000_0000 * flags, 4 * code + low;
    assert raw % 0x4000_0000 == w;
    assert w / 4 == code;
    assert raw == 4 * (code + 0x1000_0000 * flags) + low;
  }

  lemma TimestampOfFields(raw: Uint32, code: Uint32, low: nat)
    requires raw % 0x4000_0000 / 4 == code && raw % 4 == low
    ensures Timestamp(raw) == 4 * DecodeWord(code) + low
  {}

  /** Every 30-bit time survives encoding, with any flag bits added, and decoding. */
  lemma TimestampRoundTrip(t: nat, flags: nat)
    requires t < 0x4000_0000 && flags < 4
    ensures Timestamp(EncodeTimestamp(t) + 0x4000_0000 * flags) == t
  {
    hide EncodeWord, DecodeWord, Timestamp;
    WordCodec(t / 4);
    FieldWidth(t / 4);
    var code := EncodeWord(t / 4);
    var raw := 4 * code + t % 4 + 0x4000_0000 * flags;
    RawFields(code, t % 4, flags);
    TimestampOfFields(raw, code, t % 4);
  }
}
