/** The raw event records in a board's data packet: 76 bytes each, little-endian, with Gray-coded timestamps. */
module PacketFormat {
  import opened Words
  import opened Events
  import Gray

  /** Bytes from the start of the packet's data, with whatever lies behind them. */
  type Memory = nat -> Octet

  const HEADER: nat := 12
  const RECORD: nat := 76

  function Word16(memory: Memory, j: nat): Uint16 {
    memory(j) + 256 * memory(j + 1)
  }

  function Word32(memory: Memory, j: nat): Uint32 {
    Word16(memory, j) + TWO_TO_16 * Word16(memory, j + 2)
  }

  function AdcAt(memory: Memory, j: nat): Adc {
    seq(32, k requires 0 <= k < 32 => Word16(memory, j + 2 * k))
  }

  /** Bit 30: no reference pulse was seen. */
  predicate Overflow(word: Uint32) {
    word / 0x4000_0000 % 2 == 1
  }

  /** Bit 31: this is a reference event. */
  predicate Reference(word: Uint32) {
    word / 0x8000_0000 == 1
  }

  /** The driver inverts the overflow bits. */
  function Flags(word0: Uint32, word1: Uint32): (flags: Uint16)
    ensures flags < 16
  {
    (if Overflow(word0) then 0 else 1) + (if Overflow(word1) then 0 else 2)
    + (if Reference(word0) then 4 else 0) + (if Reference(word1) then 8 else 0)
  }

  /** Time of an event, corrected for the phase drift. */
  function EventTime(word: Uint32): (t: Uint32)
    ensures 5 <= t <= 0x4000_0004
  {
    Gray.TimestampRange(word);
    Gray.Timestamp(word) + 5
  }

  /** What the driver writes into a slot for the record at `j`; the two loss counts of the slot stay as they were. */
  function Decoded(memory: Memory, j: nat, source: Octet, slot: Event): Event {
    var word0, word1 := Word32(memory, j + 4), Word32(memory, j + 8);
    slot.(mac5 := source, flags := Flags(word0, word1), ts0 := EventTime(word0), ts1 := EventTime(word1),
          adc := AdcAt(memory, j + HEADER))
  }

  /** A timestamp before encoding. */
  datatype Stamp = Stamp(time: nat, overflow: bool, reference: bool)
  {
    predicate Fits() {
      time < 0x4000_0000
    }

    /** The two bits above the time. */
    function Marks(): (m: nat)
      ensures m < 4
    {
      (if overflow then 1 else 0) + (if reference then 2 else 0)
    }

    function Raw(): (word: Uint32)
      requires Fits()
    {
      Gray.EncodeTimestamp(time) + 0x4000_0000 * Marks()
    }
  }

  datatype Record = Record(overwritten: Uint16, lost: Uint16, stamp0: Stamp, stamp1: Stamp, adc: Adc)
  {
    predicate Fits() {
      stamp0.Fits() && stamp1.Fits()
    }
  }

  function Low(x: int): Octet {
    x % 256
  }

  function Bytes16(x: Uint16): (b: seq<Octet>)
    ensures |b| == 2
  {
    [Low(x), x / 256]
  }

  function Bytes32(x: Uint32): (b: seq<Octet>)
    ensures |b| == 4
  {
    Bytes16(x % TWO_TO_16) + Bytes16(x / TWO_TO_16)
  }

  function AdcByte(adc: Adc, i: nat): Octet
    requires i < 64
  {
    if i % 2 == 0 then Low(adc[i / 2]) else adc[i / 2] / 256
  }

  function RecordBytes(r: Record): (b: seq<Octet>)
    requires r.Fits()
    ensures |b| == RECORD
  {
    Bytes16(r.overwritten) + Bytes16(r.lost) + Bytes32(r.stamp0.Raw()) + Bytes32(r.stamp1.Raw())
    + seq(64, i requires 0 <= i < 64 => AdcByte(r.adc, i))
  }

  /** The memory holds these bytes at `j`. */
  ghost predicate HasBytes(memory: Memory, j: nat, bytes: seq<Octet>) {
    forall i | 0 <= i < |bytes| :: memory(j + i) == bytes[i]
  }

  lemma HasBytesSplit(memory: Memory, j: nat, front: seq<Octet>, rest: seq<Octet>)
    requires HasBytes(memory, j, front + rest)
    ensures HasBytes(memory, j, front) && HasBytes(memory, j + |front|, rest)
  {
    forall i | 0 <= i < |front| ensures memory(j + i) == front[i] {
      assert (front + rest)[i] == front[i];
    }
    forall i | 0 <= i < |rest| ensures memory(j + |front| + i) == rest[i] {
      assert (front + rest)[|front| + i] == rest[i];
      assert j + |front| + i == j + (|front| + i);
    }
  }

  lemma ReadWord16(memory: Memory, j: nat, x: Uint16)
    requires HasBytes(memory, j, Bytes16(x))
    ensures Word16(memory, j) == x
  {
    assert memory(j + 0) == Bytes16(x)[0] && memory(j + 1) == Bytes16(x)[1];
  }

  lemma ReadWord32(memory: Memory, j: nat, x: Uint32)
    requires HasBytes(memory, j, Bytes32(x))
    ensures Word32(memory, j) == x
  {
    HasBytesSplit(memory, j, Bytes16(x % TWO_TO_16), Bytes16(x / TWO_TO_16));
    ReadWord16(memory, j, x % TWO_TO_16);
    ReadWord16(memory, j + 2, x / TWO_TO_16);
  }

  lemma ReadAdc(memory: Memory, j: nat, adc: Adc)
    requires HasBytes(memory, j, seq(64, i requires 0 <= i < 64 => AdcByte(adc, i)))
    ensures AdcAt(memory, j) == adc
  {
    var bytes := seq(64, i requires 0 <= i < 64 => AdcByte(adc, i));
    forall k | 0 <= k < 32 ensures Word16(memory, j + 2 * k) == adc[k] {
      assert memory(j + 2 * k) == bytes[2 * k];
      assert memory(j + (2 * k + 1)) == bytes[2 * k + 1];
    }
  }

  lemma FlagBits(code: nat, marks: nat)
    requires code < 0x4000_0000 && marks < 4
    ensures
      var word := code + 0x4000_0000 * marks;
      word < TWO_TO_32 && (Overflow(word) <==> marks % 2 == 1) && (Reference(word) <==> marks / 2 == 1)
  {
    assert (code + 0x4000_0000 * marks) / 0x4000_0000 == marks;
  }

  /** The decoder gets back every field of an encoded timestamp. */
  lemma ReadStamp(s: Stamp)
    requires s.Fits()
    ensures EventTime(s.Raw()) == s.time + 5
    ensures Overflow(s.Raw()) <==> s.overflow
    ensures Reference(s.Raw()) <==> s.reference
  {
    hide Gray.EncodeTimestamp, Gray.Timestamp, Overflow, Reference;
    FlagBits(Gray.EncodeTimestamp(s.time), s.Marks());
    Gray.TimestampRoundTrip(s.time, s.Marks());
  }

  lemma ReadFlags(word0: Uint32, word1: Uint32)
    ensures
      var flags := Flags(word0, word1);
      && (flags % 2 == 0 <==> Overflow(word0)) && (flags / 2 % 2 == 0 <==> Overflow(word1))
      && (flags / 4 % 2 != 0 <==> Reference(word0)) && (flags / 8 % 2 == 1 <==> Reference(word1))
  {
    hide Overflow, Reference;
  }

  /** The event carries the record's values. */
  ghost predicate Matches(e: Event, r: Record, source: Octet) {
    && e.mac5 == source && e.adc == r.adc
    && e.ts0 == r.stamp0.time + 5 && e.ts1 == r.stamp1.time + 5
    && (e.IsOverflow() <==> r.stamp0.overflow) && (e.IsReference() <==> r.stamp0.reference)
    && (e.flags / 2 % 2 == 0 <==> r.stamp1.overflow) && (e.flags / 8 % 2 == 1 <==> r.stamp1.reference)
  }

  lemma ReadHeader(memory: Memory, j: nat, r: Record)
    requires r.Fits() && HasBytes(memory, j, RecordBytes(r))
    ensures Word16(memory, j) == r.overwritten && Word16(memory, j + 2) == r.lost
    ensures Word32(memory, j + 4) == r.stamp0.Raw() && Word32(memory, j + 8) == r.stamp1.Raw()
    ensures AdcAt(memory, j + HEADER) == r.adc
  {
    var a, b := Bytes16(r.overwritten), Bytes16(r.lost);
    var c, d := Bytes32(r.stamp0.Raw()), Bytes32(r.stamp1.Raw());
    var e := seq(64, i requires 0 <= i < 64 => AdcByte(r.adc, i));
    hide HasBytes, Bytes16, Bytes32, Word16, Word32, AdcAt, AdcByte, Record.Fits, Stamp.Raw;
    HasBytesSplit(memory, j, a + b + c + d, e);
    HasBytesSplit(memory, j, a + b + c, d);
    HasBytesSplit(memory, j, a + b, c);
    HasBytesSplit(memory, j, a, b);
    ReadWord16(memory, j, r.overwritten);
    ReadWord16(memory, j + 2, r.lost);
    ReadWord32(memory, j + 4, r.stamp0.Raw());
    ReadWord32(memory, j + 8, r.stamp1.Raw());
    ReadAdc(memory, j + 12, r.adc);
  }

  /** Decoding an encoded record gives back the record, whatever was in the slot. */
  lemma RecordRoundTrip(memory: Memory, j: nat, r: Record, source: Octet, slot: Event)
    requires r.Fits() && HasBytes(memory, j, RecordBytes(r))
    ensures Matches(Decoded(memory, j, source, slot), r, source)
  {
    ReadHeader(memory, j, r);
    ReadStamp(r.stamp0);
    ReadStamp(r.stamp1);
    ReadFlags(r.stamp0.Raw(), r.stamp1.Raw());
    hide HasBytes, Word16, Word32, AdcAt, EventTime, Overflow, Reference, RecordBytes, Stamp.Raw, Flags;
  }
}
