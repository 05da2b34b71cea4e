/**
 The PTP date-and-time value of crates/mtp-rs/src/ptp/pack/datetime.rs: Unix seconds, its text
 form `YYYYMMDDThhmmss[.s][Z|±hhmm]`, and its packed form.
 */
module DateTimes {
  import opened Common
  import Calendar

  type i64 = x: int | -0x8000_0000_0000_0000 <= x < 0x8000_0000_0000_0000

  /** Whole minutes east of UTC, within ±23:59. */
  type UtcOffset = m: int | -1440 < m < 1440

  datatype DateTime = DateTime(
    year: u16, month: byte, day: byte, hour: byte, minute: byte, second: byte,
    offset: Option<UtcOffset>)

  const MIN_UNIX_SECONDS: int := -62_167_219_200
  const MAX_UNIX_SECONDS: int := 253_402_300_799
  const SECONDS_PER_DAY := 86_400

  predicate IsValid(t: DateTime) {
    && t.year <= 9999
    && 1 <= t.day <= Calendar.DaysInMonth(t.year, t.month)
    && t.hour <= 23 && t.minute <= 59 && t.second <= 59
  }

  // --- Unix seconds ---

  function LocalDate(secs: int, offset: UtcOffset): Calendar.Date {
    Calendar.CivilFromDays((secs + offset * 60) / SECONDS_PER_DAY)
  }

  // Casts that keep the low bits, as the source's `as u8` and `as u16` do.
  function AsU8(x: int): byte { x % 0x100 }

  function AsU16(x: int): u16 { x % 0x1_0000 }

  /** The instant `secs` as wall-clock time at `offset`, which the result carries. */
  function FromUnixSeconds(secs: i64, offset: UtcOffset): Option<DateTime> {
    var local: int := secs + offset * 60;
    if !(-0x8000_0000_0000_0000 <= local < 0x8000_0000_0000_0000) then None
    else if !(MIN_UNIX_SECONDS <= local <= MAX_UNIX_SECONDS) then None
    else
      var date := Calendar.CivilFromDays(local / SECONDS_PER_DAY);
      var time := local % SECONDS_PER_DAY;
      Some(DateTime(
             AsU16(date.year), AsU8(date.month), AsU8(date.day),
             AsU8(time / 3600), AsU8(time / 60 % 60), AsU8(time % 60), Some(offset)))
  }

  function ToUnixSecondsWithFallback(t: DateTime, fallback: UtcOffset): Option<int> {
    if !IsValid(t) then None
    else
      var days := Calendar.DaysFromCivil(t.year, t.month, t.day);
      var time: int := t.hour * 3600 + t.minute * 60 + t.second;
      var east: int := if t.offset.Some? then t.offset.value else fallback;
      Some(days * SECONDS_PER_DAY + time - east * 60)
  }

  function ToUnixSeconds(t: DateTime): Option<int> {
    if t.offset.Some? then ToUnixSecondsWithFallback(t, t.offset.value) else None
  }

  /** The two bounds are the first and last seconds of the years 0 to 9999. */
  lemma {:induction false} BoundsAreYears(local: int)
    ensures MIN_UNIX_SECONDS <= local <= MAX_UNIX_SECONDS
      <==> 0 <= Calendar.CivilFromDays(local / SECONDS_PER_DAY).year <= 9999
  {
    hide Calendar.CivilFromDays;
    Calendar.YearBounds(local / SECONDS_PER_DAY);
    YearEdges();
  }

  lemma {:induction false} YearEdges()
    ensures Calendar.Days(Calendar.Date(0, 1, 1)) * SECONDS_PER_DAY == MIN_UNIX_SECONDS
    ensures Calendar.Days(Calendar.Date(10_000, 1, 1)) * SECONDS_PER_DAY == MAX_UNIX_SECONDS + 1
  {
    assert Calendar.DaysFromCivil(0, 1, 1) == -719_528 by { assert -1 / 400 == -1; }
    assert Calendar.DaysFromCivil(10_000, 1, 1) == 2_932_897 by { assert 9999 / 400 == 24; }
  }

  /** A time of day as hours, minutes and seconds. */
  lemma {:induction false} TimeParts(time: int)
    requires 0 <= time < SECONDS_PER_DAY
    ensures 0 <= time / 3600 <= 23 && 0 <= time / 60 % 60 <= 59 && 0 <= time % 60 <= 59
    ensures time / 3600 * 3600 + time / 60 % 60 * 60 + time % 60 == time
  {
  }

  lemma {:induction false} MonthsAreShort(d: Calendar.Date)
    requires Calendar.IsDate(d)
    ensures 1 <= d.month <= 12 && 1 <= d.day <= 31
  {
  }

  lemma {:induction false} CastsKeep(a: int, b: int, c: int)
    requires 0 <= a < 0x1_0000 && 0 <= b < 0x100 && 0 <= c < 0x100
    ensures AsU16(a) == a && AsU8(b) == b && AsU8(c) == c
    ensures a < 0x100 ==> AsU8(a) == a
  {
  }

  /** In range, no cast loses anything: the fields are the local date and time. */
  lemma {:induction false} FromUnixFields(secs: i64, offset: UtcOffset)
    ensures var r, time := FromUnixSeconds(secs, offset), (secs + offset * 60) % SECONDS_PER_DAY;
            r.Some? ==>
              var t := r.value;
              && Calendar.Date(t.year, t.month, t.day) == LocalDate(secs, offset)
              && t.hour == time / 3600 <= 23 && t.minute == time / 60 % 60 && t.second == time % 60
              && t.year <= 9999 && t.offset == Some(offset)
  {
    hide Calendar.CivilFromDays, Calendar.DaysInMonth, AsU8, AsU16;
    if FromUnixSeconds(secs, offset).Some? {
      var local: int := secs + offset * 60;
      var date, time := LocalDate(secs, offset), local % SECONDS_PER_DAY;
      BoundsAreYears(local);
      Calendar.DaysRoundTrip(local / SECONDS_PER_DAY);
      MonthsAreShort(date);
      TimeParts(time);
      CastsKeep(date.year, date.month, date.day);
      CastsKeep(time / 3600, time / 60 % 60, time % 60);
    }
  }

  /** A value comes back exactly when the local year is in 0-9999; it is valid and names `secs`. */
  lemma {:induction false} FromUnixIsExact(secs: i64, offset: UtcOffset)
    ensures FromUnixSeconds(secs, offset).Some? <==> 0 <= LocalDate(secs, offset).year <= 9999
    ensures var r := FromUnixSeconds(secs, offset);
            r.Some? ==> IsValid(r.value) && r.value.offset == Some(offset) && ToUnixSeconds(r.value) == Some(secs)
  {
    hide Calendar.CivilFromDays, Calendar.DaysFromCivil, Calendar.DaysInMonth, AsU8, AsU16;
    var local: int := secs + offset * 60;
    BoundsAreYears(local);
    if FromUnixSeconds(secs, offset).Some? {
      FromUnixFields(secs, offset);
      Calendar.DaysRoundTrip(local / SECONDS_PER_DAY);
      TimeParts(local % SECONDS_PER_DAY);
    }
  }

  lemma {:induction false} ClockParts(h: int, m: int, s: int)
    requires 0 <= h <= 23 && 0 <= m <= 59 && 0 <= s <= 59
    ensures var time := h * 3600 + m * 60 + s;
            0 <= time < SECONDS_PER_DAY && time / 3600 == h && time / 60 % 60 == m && time % 60 == s
  {
  }

  lemma {:induction false} DayParts(days: int, time: int)
    requires 0 <= time < SECONDS_PER_DAY
    ensures (days * SECONDS_PER_DAY + time) / SECONDS_PER_DAY == days
    ensures (days * SECONDS_PER_DAY + time) % SECONDS_PER_DAY == time
  {
  }

  /** A valid value's wall clock, as a count of seconds: its date, its time, and the range it is in. */
  lemma {:induction false} LocalSeconds(t: DateTime, fallback: UtcOffset) returns (local: int)
    requires IsValid(t)
    ensures var east: int := if t.offset.Some? then t.offset.value else fallback;
            ToUnixSecondsWithFallback(t, fallback) == Some(local - east * 60)
    ensures MIN_UNIX_SECONDS <= local <= MAX_UNIX_SECONDS
    ensures Calendar.CivilFromDays(local / SECONDS_PER_DAY) == Calendar.Date(t.year, t.month, t.day)
    ensures var time := local % SECONDS_PER_DAY;
            time / 3600 == t.hour && time / 60 % 60 == t.minute && time % 60 == t.second
  {
    hide Calendar.CivilFromDays, Calendar.DaysFromCivil, Calendar.DaysInMonth;
    var date := Calendar.Date(t.year, t.month, t.day);
    Calendar.CivilRoundTrip(date);
    ClockParts(t.hour, t.minute, t.second);
    var time := t.hour as int * 3600 + t.minute as int * 60 + t.second;
    DayParts(Calendar.Days(date), time);
    local := Calendar.Days(date) * SECONDS_PER_DAY + time;
    BoundsAreYears(local);
  }

  /** Every valid offset-carrying value comes back unchanged from its seconds. */
  lemma {:induction false} ToUnixIsExact(t: DateTime)
    requires IsValid(t) && t.offset.Some?
    ensures var secs := ToUnixSeconds(t).value;
            && -0x8000_0000_0000_0000 <= secs < 0x8000_0000_0000_0000
            && FromUnixSeconds(secs, t.offset.value) == Some(t)
  {
    hide Calendar.CivilFromDays, Calendar.DaysInMonth, ToUnixSecondsWithFallback, FromUnixSeconds;
    var local := LocalSeconds(t, t.offset.value);
    var offset := t.offset.value;
    var secs := ToUnixSeconds(t).value;
    assert secs + offset * 60 == local;
    FromUnixIsExact(secs, offset);
    FromUnixFields(secs, offset);
  }

  /** Seconds come of exactly the valid values: of all with a fallback, of offset-carrying ones without. */
  lemma {:induction false} OnlyValidHasSeconds(t: DateTime, fallback: UtcOffset)
    ensures ToUnixSecondsWithFallback(t, fallback).Some? <==> IsValid(t)
    ensures ToUnixSeconds(t).Some? <==> IsValid(t) && t.offset.Some?
  {
  }

  /** A zoneless value read with a fallback is that value marked with the fallback offset. */
  lemma {:induction false} FallbackReadsAsOffset(t: DateTime, fallback: UtcOffset)
    requires IsValid(t)
    ensures var marked := if t.offset.Some? then t else t.(offset := Some(fallback));
            ToUnixSecondsWithFallback(t, fallback) == ToUnixSeconds(marked)
  {
  }
}
