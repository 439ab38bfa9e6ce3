/** The driver's bit getter and setter on byte buffers: bit 0 is in the last byte used, and within a byte the
    position follows the index itself, not the distance from the end. */
module BitStore {

  type Byte = bv8

  /** Where a bit lives. */
  function ByteIndex(bitlen: nat, i: nat): (b: nat)
    requires i < bitlen
    ensures b < Bytes(bitlen)
  {
    (bitlen - 1 - i) / 8
  }

  function Position(i: nat): (k: nat)
    ensures k < 8
  {
    7 - i % 8
  }

  /** The byte with only bit `k` set. */
  function Mask(k: nat): Byte
    requires k < 8
  {
    1 << k
  }

  /** Number of bytes that hold `bitlen` bits. */
  function Bytes(bitlen: nat): nat {
    (bitlen + 7) / 8
  }

  predicate IsOn(byte: Byte, k: nat)
    requires k < 8
  {
    byte & Mask(k) != 0
  }

  function Overlay(byte: Byte, mask: Byte, value: bool): Byte {
    var cleared := byte & !mask;
    if value then cleared | mask else cleared
  }

  function Put(byte: Byte, k: nat, value: bool): Byte
    requires k < 8
  {
    Overlay(byte, Mask(k), value)
  }

  lemma PutThenOn(byte: Byte, k: nat, l: nat, value: bool)
    requires k < 8 && l < 8
    ensures IsOn(Put(byte, k, value), l) <==> if k == l then value else IsOn(byte, l)
  {
    assert k != l ==> Put(byte, k, value) & Mask(l) == byte & Mask(l);
  }

  /** Bit `k` of byte `b`. */
  predicate Cell(buffer: seq<Byte>, b: nat, k: nat)
    requires b < |buffer| && k < 8
  {
    IsOn(buffer[b], k)
  }

  predicate GetBit(buffer: seq<Byte>, bitlen: nat, i: nat)
    requires i < bitlen && Bytes(bitlen) <= |buffer|
  {
    Cell(buffer, ByteIndex(bitlen, i), Position(i))
  }

  function SetBit(buffer: seq<Byte>, bitlen: nat, i: nat, value: bool): (r: seq<Byte>)
    requires i < bitlen && Bytes(bitlen) <= |buffer|
    ensures |r| == |buffer|
  {
    var b := ByteIndex(bitlen, i);
    buffer[b := Put(buffer[b], Position(i), value)]
  }

  /** Different bits live in different cells, whether or not the length is a multiple of 8. */
  lemma SameCellIff(bitlen: nat, i: nat, j: nat)
    requires i < bitlen && j < bitlen
    ensures ByteIndex(bitlen, i) == ByteIndex(bitlen, j) && Position(i) == Position(j) <==> i == j
  {
    var d := bitlen - 1;
    if ByteIndex(bitlen, i) == ByteIndex(bitlen, j) && i % 8 == j % 8 {
      assert d - i == 8 * ((d - i) / 8) + (d - i) % 8;
      assert d - j == 8 * ((d - j) / 8) + (d - j) % 8;
      assert -8 < i - j < 8;
      assert i == 8 * (i / 8) + i % 8 && j == 8 * (j / 8) + j % 8;
    }
  }

  /** Byte `b` holds the eight bits that end `8 * b` before the length. */
  lemma ByteHoldsIff(bitlen: nat, i: nat, b: nat)
    requires i < bitlen
    ensures ByteIndex(bitlen, i) == b <==> bitlen - 8 * b - 8 <= i < bitlen - 8 * b
  {}

  /** Setting a bit writes that bit's cell and no other cell of the buffer, used or not. */
  lemma SetCell(buffer: seq<Byte>, bitlen: nat, i: nat, value: bool, b: nat, k: nat)
    requires i < bitlen && Bytes(bitlen) <= |buffer| && b < |buffer| && k < 8
    ensures Cell(SetBit(buffer, bitlen, i, value), b, k)
        <==> if b == ByteIndex(bitlen, i) && k == Position(i) then value else Cell(buffer, b, k)
  {
    hide IsOn, Put, ByteIndex, Position;
    PutThenOn(buffer[b], Position(i), k, value);
  }

  /** The get-after-set law and the law of distinct bits. */
  lemma GetAfterSet(buffer: seq<Byte>, bitlen: nat, i: nat, j: nat, value: bool)
    requires i < bitlen && j < bitlen && Bytes(bitlen) <= |buffer|
    ensures GetBit(SetBit(buffer, bitlen, i, value), bitlen, j) <==> if i == j then value else GetBit(buffer, bitlen, j)
  {
    hide Cell, SetBit, ByteIndex, Position;
    SetCell(buffer, bitlen, i, value, ByteIndex(bitlen, j), Position(j));
    SameCellIff(bitlen, i, j);
  }

  /** The buffer seen as a plain array of booleans. */
  function Contents(buffer: seq<Byte>, bitlen: nat): (bits: seq<bool>)
    requires Bytes(bitlen) <= |buffer|
    ensures |bits| == bitlen
  {
    seq(bitlen, i requires 0 <= i < bitlen => GetBit(buffer, bitlen, i))
  }

  function Lit(on: bool, weight: Byte): Byte {
    if on then weight else 0
  }

  function EightLit(a: bool, b: bool, c: bool, d: bool, e: bool, f: bool, g: bool, h: bool): Byte {
    Lit(a, 0x80) | Lit(b, 0x40) | Lit(c, 0x20) | Lit(d, 0x10)
    | Lit(e, 0x08) | Lit(f, 0x04) | Lit(g, 0x02) | Lit(h, 0x01)
  }

  /** Eight bits as a byte, the first of them the most significant. */
  function ByteFrom(bits: seq<bool>): Byte
    requires |bits| == 8
  {
    EightLit(bits[0], bits[1], bits[2], bits[3], bits[4], bits[5], bits[6], bits[7])
  }

  lemma EightBits(byte: Byte)
    ensures byte == EightLit(IsOn(byte, 7), IsOn(byte, 6), IsOn(byte, 5), IsOn(byte, 4), IsOn(byte, 3), IsOn(byte, 2),
                             IsOn(byte, 1), IsOn(byte, 0))
  {}

  lemma ByteIs(byte: Byte, bits: seq<bool>)
    requires |bits| == 8 && forall j | 0 <= j < 8 :: bits[j] == IsOn(byte, 7 - j)
    ensures byte == ByteFrom(bits)
  {
    hide IsOn, EightLit;
    assert bits[0] == IsOn(byte, 7) && bits[1] == IsOn(byte, 6) && bits[2] == IsOn(byte, 5) && bits[3] == IsOn(byte, 4);
    assert bits[4] == IsOn(byte, 3) && bits[5] == IsOn(byte, 2) && bits[6] == IsOn(byte, 1) && bits[7] == IsOn(byte, 0);
    EightBits(byte);
  }

  lemma BitInByte(buffer: seq<Byte>, n: nat, m: nat, j: nat)
    requires m < n <= |buffer| && j < 8
    ensures Contents(buffer, 8 * n)[8 * m..8 * m + 8][j] == IsOn(buffer[n - 1 - m], 7 - j)
  {
    hide IsOn;
    ByteHoldsIff(8 * n, 8 * m + j, n - 1 - m);
    assert (8 * m + j) % 8 == j;
  }

  /** When the length is a multiple of 8, bits 8 * m to 8 * m + 7 are byte `m` from the end. */
  lemma ByteOfBits(buffer: seq<Byte>, n: nat, m: nat)
    requires m < n <= |buffer|
    ensures buffer[n - 1 - m] == ByteFrom(Contents(buffer, 8 * n)[8 * m..8 * m + 8])
  {
    hide GetBit, IsOn, ByteFrom, Contents;
    var bits := Contents(buffer, 8 * n)[8 * m..8 * m + 8];
    forall j | 0 <= j < 8 ensures bits[j] == IsOn(buffer[n - 1 - m], 7 - j) {
      BitInByte(buffer, n, m, j);
    }
    ByteIs(buffer[n - 1 - m], bits);
  }

  datatype Write = Write(index: nat, value: bool)

  ghost predicate InRange(writes: seq<Write>, bitlen: nat) {
    forall w | w in writes :: w.index < bitlen
  }

  function SetAll(buffer: seq<Byte>, bitlen: nat, writes: seq<Write>): (r: seq<Byte>)
    requires Bytes(bitlen) <= |buffer| && InRange(writes, bitlen)
    ensures |r| == |buffer|
  {
    if writes == [] then buffer
    else
      var w := writes[|writes| - 1];
      SetBit(SetAll(buffer, bitlen, writes[..|writes| - 1]), bitlen, w.index, w.value)
  }

  function UpdateAll(bits: seq<bool>, writes: seq<Write>): (r: seq<bool>)
    requires InRange(writes, |bits|)
    ensures |r| == |bits|
  {
    if writes == [] then bits
    else
      var w := writes[|writes| - 1];
      UpdateAll(bits, writes[..|writes| - 1])[w.index := w.value]
  }

  lemma SetRefines(buffer: seq<Byte>, bitlen: nat, i: nat, value: bool)
    requires i < bitlen && Bytes(bitlen) <= |buffer|
    ensures Contents(SetBit(buffer, bitlen, i, value), bitlen) == Contents(buffer, bitlen)[i := value]
  {
    forall j | 0 <= j < bitlen
      ensures GetBit(SetBit(buffer, bitlen, i, value), bitlen, j) == Contents(buffer, bitlen)[i := value][j]
    {
      GetAfterSet(buffer, bitlen, i, j, value);
    }
    hide GetBit, SetBit;
  }

  /** Any sequence of sets acts on the buffer as updates act on an array of booleans. */
  lemma {:induction false} SetsRefine(buffer: seq<Byte>, bitlen: nat, writes: seq<Write>)
    requires Bytes(bitlen) <= |buffer| && InRange(writes, bitlen)
    ensures Contents(SetAll(buffer, bitlen, writes), bitlen) == UpdateAll(Contents(buffer, bitlen), writes)
  {
    if writes != [] {
      var before, w := writes[..|writes| - 1], writes[|writes| - 1];
      SetsRefine(buffer, bitlen, before);
      SetRefines(SetAll(buffer, bitlen, before), bitlen, w.index, w.value);
    }
    hide Contents, SetBit;
  }

  /** Only the bytes that hold the bits matter. */
  lemma GetBitOfPrefix(buffer: seq<Byte>, other: seq<Byte>, bitlen: nat, i: nat)
    requires i < bitlen && Bytes(bitlen) <= |buffer| && Bytes(bitlen) <= |other|
    requires buffer[..Bytes(bitlen)] == other[..Bytes(bitlen)]
    ensures GetBit(buffer, bitlen, i) <==> GetBit(other, bitlen, i)
  {
    var b := ByteIndex(bitlen, i);
    assert buffer[..Bytes(bitlen)][b] == other[..Bytes(bitlen)][b];
  }

  method ConfigSetBit(buffer: array<Byte>, bitlen: nat, bitIndex: nat, value: bool)
    requires bitIndex < bitlen && Bytes(bitlen) <= buffer.Length
    modifies buffer
    ensures buffer[..] == SetBit(old(buffer[..]), bitlen, bitIndex, value)
  {
    hide Mask, Overlay;
    var byte := buffer[(bitlen - 1 - bitIndex) / 8];
    var mask := Mask(7 - bitIndex % 8);
    byte := Overlay(byte, mask, value);
    buffer[(bitlen - 1 - bitIndex) / 8] := byte;
  }

  method ConfigGetBit(buffer: array<Byte>, bitlen: nat, bitIndex: nat) returns (isSet: bool)
    requires bitIndex < bitlen && Bytes(bitlen) <= buffer.Length
    ensures isSet <==> GetBit(buffer[..], bitlen, bitIndex)
  {
    hide Mask;
    var byte := buffer[(bitlen - 1 - bitIndex) / 8];
    var mask := Mask(7 - bitIndex % 8);
    byte := byte & mask;
    if byte != 0 {
      return true;
    } else {
      return false;
    }
  }
}
