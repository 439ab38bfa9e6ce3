/** The 80-byte event record that the driver publishes and the fragment builder stores. */
module Events {
  import opened Words

  /** One value per channel of a board. */
  type Adc = s: seq<Uint16> | |s| == 32 witness seq(32, _ => 0)

  datatype Event = Event(mac5: Uint16, flags: Uint16, lostCpu: Uint16, lostFpga: Uint16,
                         ts0: Uint32, ts1: Uint32, adc: Adc)
  {
    /** The "timestamp present" bit is inverted by the driver, so 0 means overflow. */
    predicate IsOverflow() {
      flags % 2 == 0
    }

    predicate IsReference() {
      flags / 4 % 2 != 0
    }

    function Time(): int {
      ts0
    }
  }

  /** Seconds and microseconds, as the builder keeps poll times. */
  datatype TimeVal = TimeVal(sec: int, usec: int)

  /** Start and end of the poll that delivered an event. */
  type Span = (TimeVal, TimeVal)
}
