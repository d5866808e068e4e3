/** The conversion of packet timestamps in the read loop of pqcdump (pqcdump/src/main.rs). */
module Timestamps {
  import opened Common
  import opened Net

  const SECOND := 1_000_000_000

  // The calendar of the `chrono` crate ends with these seconds.
  const FIRST_SECOND := -8_334_601_228_800
  const LAST_SECOND := 8_210_266_876_799

  datatype Time = Time(sec: i64, nanos: u32)

  /** `*` on i64, which wraps in a release build. */
  function Times(a: i64, b: i64): i64 {
    (a * b + 0x8000_0000_0000_0000) % 0x1_0000_0000_0000_0000 - 0x8000_0000_0000_0000
  }

  /** `timestamp_opt`: nanoseconds past a second only within a leap second, which follows a second 59. */
  function TimestampOpt(sec: i64, nanos: u32): Option<Time> {
    if sec < FIRST_SECOND || sec > LAST_SECOND then None
    else if nanos >= 2 * SECOND || (nanos >= SECOND && sec % 60 != 59) then None
    else Some(Time(sec, nanos))
  }

  /** The time of a packet; `Panic` where the program unwraps a failed conversion. */
  function TimeOf(t: Stamp): Outcome<Time, ()> {
    var nanos := Times(t.usec, 1000);
    if nanos < 0 || nanos >= 0x1_0000_0000 then Panic  // `try_into().unwrap()`
    else match TimestampOpt(t.sec, nanos)
      case Some(time) => Ok(time)
      case None => Panic
  }

  /** A timestamp that can be converted. */
  predicate IsValid(t: Stamp) {
    var nanos := Times(t.usec, 1000);
    && FIRST_SECOND <= t.sec <= LAST_SECOND
    && (0 <= nanos < SECOND || (SECOND <= nanos < 2 * SECOND && t.sec % 60 == 59))
  }

  lemma ConvertsExactly(t: Stamp)
    ensures TimeOf(t).Ok? <==> IsValid(t)
    ensures TimeOf(t).Ok? || TimeOf(t) == Panic
  {
    hide Times;
  }

  /** For the unsigned 32-bit fields of a classic capture file: less than a second, or a leap second. */
  lemma RecordStamps(t: Stamp)
    requires 0 <= t.sec < 0x1_0000_0000 && 0 <= t.usec < 0x1_0000_0000
    ensures TimeOf(t).Ok? <==> t.usec < 1_000_000 || (t.usec < 2_000_000 && t.sec % 60 == 59)
    ensures TimeOf(t).Ok? ==> TimeOf(t).value == Time(t.sec, 1000 * t.usec)
  {
    assert Times(t.usec, 1000) == 1000 * t.usec;
  }
}
