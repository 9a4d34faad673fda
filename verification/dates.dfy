/** ECMAScript time values: milliseconds since the epoch, limited to
    100,000,000 days either side of it, with NaN for an invalid date. */
module Dates {

  import opened Wrappers

  /** The largest magnitude a time value may have (8.64e15 ms). */
  const MaxTimeValue: int := 8_640_000_000_000_000

  predicate Representable(t: int)
  {
    -MaxTimeValue <= t <= MaxTimeValue
  }

  /** A valid time value, e.g. the instant `new Date()` reads from the clock. */
  type Instant = t: int | Representable(t)

  /** TimeClip: a time value out of range becomes NaN (`None`). */
  function TimeClip(t: int): Option<Instant>
  {
    if Representable(t) then Some(t) else None
  }

  const MsPerSecond: int := 1000
  const MsPerMinute: int := 60_000
  const MsPerHour: int := 3_600_000
  const MsPerDay: int := 86_400_000

  // The date-field helpers of section 21.4.1 of ECMA-262. Dafny's `/` and
  // `%` by a positive constant are the floor and modulo they are defined with.

  function Day(t: int): int { t / MsPerDay }
  function HourFromTime(t: int): int { (t / MsPerHour) % 24 }
  function MinFromTime(t: int): int { (t / MsPerMinute) % 60 }
  function SecFromTime(t: int): int { (t / MsPerSecond) % 60 }
  function MsFromTime(t: int): int { t % MsPerSecond }

  function MakeTime(hour: int, min: int, sec: int, ms: int): int
  {
    hour * MsPerHour + min * MsPerMinute + sec * MsPerSecond + ms
  }

  function MakeDate(day: int, time: int): int
  {
    day * MsPerDay + time
  }

  /** Splitting a time value into its day, hour, minute, second and
      millisecond fields and putting them back together gives it back. */
  lemma ReassembleTime(t: int)
    ensures MakeDate(Day(t), MakeTime(HourFromTime(t), MinFromTime(t), SecFromTime(t), MsFromTime(t))) == t
  {
    var q0, r0 := t / 1000, t % 1000;
    assert t == q0 * 1000 + r0;
    var q1 := q0 / 60;
    assert q0 == q1 * 60 + q0 % 60;
    assert t / 60_000 == q1;
    var q2 := q1 / 60;
    assert q1 == q2 * 60 + q1 % 60;
    assert t / 3_600_000 == q2;
    var q3 := q2 / 24;
    assert q2 == q3 * 24 + q2 % 24;
    assert t / 86_400_000 == q3;
  }

  /** `d.setSeconds(d.getSeconds() + seconds)` on a valid date `d`, with the
      local time `d + offset` at a fixed UTC offset: the seconds field of the
      local time is replaced, the date is rebuilt from its fields, converted
      back to UTC and clipped. The date moves by exactly `seconds` whole
      seconds, whatever the offset, and becomes invalid when it leaves the
      range. */
  function AddSeconds(d: Instant, seconds: int, offset: int): (r: Option<Instant>)
    ensures r.Some? <==> Representable(d + seconds * 1000)
    ensures r.Some? ==> r.value - d == seconds * 1000
  {
    var t := d + offset;
    ReassembleTime(t);
    var date := MakeDate(Day(t), MakeTime(HourFromTime(t), MinFromTime(t), SecFromTime(t) + seconds, MsFromTime(t)));
    TimeClip(date - offset)
  }

  /** At a fixed UTC offset, which offset it is makes no difference to
      where `setSeconds` moves a date. */
  lemma AddSecondsIgnoresOffset(d: Instant, seconds: int, offset1: int, offset2: int)
    ensures AddSeconds(d, seconds, offset1) == AddSeconds(d, seconds, offset2)
  {
  }

  /** `a < b` on two Date objects: compares their time values, and is false
      as soon as either one is NaN. */
  predicate Before(a: Option<Instant>, b: Option<Instant>)
  {
    a.Some? && b.Some? && a.value < b.value
  }

}
