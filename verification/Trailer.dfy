/** The trailer record that closes every published message: the driver packs the event count and the poll
    times into its ADC words, and the fragment builder reads the times back by byte offset. */
module Trailer {
  import opened Words
  import opened Events

  const TRAILER_MARK: Uint16 := 0xFFFF
  const MAGICWORD32: Uint32 := 0xaa55aa55

  /** `struct timeb`: 16 bytes, the last two of them padding. */
  datatype Timeb = Timeb(time: Uint64, millitm: Uint16, timezone: Uint16, dstflag: Uint16)
  {
    function ToTimeVal(): TimeVal {
      TimeVal(time, millitm * 1000)
    }
  }

  /** Little-endian 16-bit words of the integer count. */
  function CountWords(n: Uint32): (w: seq<Uint16>)
    ensures |w| == 2
  {
    [n % TWO_TO_16, n / TWO_TO_16]
  }

  function TimebWords(t: Timeb): (w: seq<Uint16>)
    ensures |w| == 8
  {
    [t.time % TWO_TO_16, t.time / TWO_TO_16 % TWO_TO_16,
     t.time / TWO_TO_32 % TWO_TO_16, t.time / (TWO_TO_32 * TWO_TO_16),
     t.millitm, t.timezone, t.dstflag, 0]
  }

  /** The trailer overwrites the record in the slot after the last event; `slot` is whatever was there before. */
  function MakeTrailer(slot: Event, count: Uint32, start: Timeb, finish: Timeb): Event {
    slot.(flags := 0xFFFF, mac5 := TRAILER_MARK, ts0 := MAGICWORD32, ts1 := MAGICWORD32,
          adc := CountWords(count) + TimebWords(start) + TimebWords(finish) + slot.adc[18..])
  }

  predicate IsTrailer(e: Event, count: Uint32, start: Timeb, finish: Timeb) {
    && e.mac5 == TRAILER_MARK && e.flags == 0xFFFF && e.ts0 == MAGICWORD32 && e.ts1 == MAGICWORD32
    && ReadCount(e) == count && ReadPollStart(e) == start && ReadPollFinish(e) == finish
  }

  function ReadCount(e: Event): Uint32 {
    e.adc[0] + TWO_TO_16 * e.adc[1]
  }

  function ReadTimeb(e: Event, word: nat): Timeb
    requires word <= 24
  {
    Timeb(e.adc[word] + TWO_TO_16 * e.adc[word + 1] + TWO_TO_32 * e.adc[word + 2]
          + TWO_TO_32 * TWO_TO_16 * e.adc[word + 3],
          e.adc[word + 4], e.adc[word + 5], e.adc[word + 6])
  }

  /** At byte offset sizeof(int). */
  function ReadPollStart(e: Event): Timeb {
    ReadTimeb(e, 2)
  }

  /** At byte offset sizeof(int) + sizeof(struct timeb). */
  function ReadPollFinish(e: Event): Timeb {
    ReadTimeb(e, 10)
  }

  lemma TimeRoundTrip(t: Timeb)
    ensures
      var w := TimebWords(t);
      w[0] + TWO_TO_16 * w[1] + TWO_TO_32 * w[2] + TWO_TO_32 * TWO_TO_16 * w[3] == t.time
  {
    var a, b := t.time / TWO_TO_16, t.time / TWO_TO_32;
    assert a == TWO_TO_16 * (a / TWO_TO_16) + a % TWO_TO_16 && a / TWO_TO_16 == b;
    assert b == TWO_TO_16 * (b / TWO_TO_16) + b % TWO_TO_16;
  }

  /** What the builder reads at its offsets is exactly what the driver packed, over any previous slot content. */
  lemma TrailerRoundTrip(slot: Event, count: Uint32, start: Timeb, finish: Timeb)
    ensures IsTrailer(MakeTrailer(slot, count, start, finish), count, start, finish)
  {
    var e := MakeTrailer(slot, count, start, finish);
    assert e.adc[..2] == CountWords(count);
    assert e.adc[2..10] == TimebWords(start);
    assert e.adc[10..18] == TimebWords(finish);
    TimeRoundTrip(start);
    TimeRoundTrip(finish);
    assert forall i | 0 <= i < 8 :: e.adc[2 + i] == TimebWords(start)[i];
    assert forall i | 0 <= i < 8 :: e.adc[10 + i] == TimebWords(finish)[i];
  }

  /** Where it lies, in 16-bit words from the start of the ADC values: the count, then the two times of 16 bytes
      each. */
  lemma TrailerWords(slot: Event, count: Uint32, start: Timeb, finish: Timeb)
    ensures
      var w := MakeTrailer(slot, count, start, finish).adc;
      && w[0] == count % 0x1_0000 && w[1] == count / 0x1_0000
      && w[2] == start.time % 0x1_0000 && w[6] == start.millitm
      && w[10] == finish.time % 0x1_0000 && w[14] == finish.millitm
      && w[18..] == slot.adc[18..]
  {}
}
