/**
 The proleptic Gregorian calendar of crates/mtp-rs/src/ptp/pack/datetime.rs: month lengths, and
 the two closed-form conversions between a civil date and a day count from 1970-01-01.

 The closed forms are compared with a calendar that knows nothing but month lengths: `NextDay`.
 */
module Calendar {

  datatype Date = Date(year: int, month: int, day: int)

  predicate IsLeapYear(year: int) {
    (year % 4 == 0 && year % 100 != 0) || year % 400 == 0
  }

  /** The month's length in days, or 0 for a month outside 1-12. */
  function DaysInMonth(year: int, month: int): int {
    if month in {1, 3, 5, 7, 8, 10, 12} then 31
    else if month in {4, 6, 9, 11} then 30
    else if month == 2 then (if IsLeapYear(year) then 29 else 28)
    else 0
  }

  /** A date the calendar has: `day` runs from 1 to the month's real length. */
  predicate IsDate(d: Date) {
    1 <= d.day <= DaysInMonth(d.year, d.month)
  }

  /** The next day, by counting to the month's length and the year's end. */
  function NextDay(d: Date): (n: Date)
    requires IsDate(d)
    ensures IsDate(n)
  {
    if d.day < DaysInMonth(d.year, d.month) then d.(day := d.day + 1)
    else if d.month < 12 then Date(d.year, d.month + 1, 1)
    else Date(d.year + 1, 1, 1)
  }

  /** Days from 1970-01-01 to the given date. Years start in March, so a leap day ends its year. */
  function DaysFromCivil(year: int, month: int, day: int): int {
    var y := if month <= 2 then year - 1 else year;
    var era := y / 400;
    var yoe := y - era * 400;
    var mp := (month + 9) % 12;
    var doy := (153 * mp + 2) / 5 + day - 1;
    var doe := yoe * 365 + yoe / 4 - yoe / 100 + doy;
    era * 146_097 + doe - 719_468
  }

  function Days(d: Date): int { DaysFromCivil(d.year, d.month, d.day) }

  /** The date at a day count from 1970-01-01. */
  function CivilFromDays(days: int): Date {
    var z := days + 719_468;
    var era := z / 146_097;
    var doe := z - era * 146_097;
    var yoe := (doe - doe / 1460 + doe / 36_524 - doe / 146_096) / 365;
    var doy := doe - (365 * yoe + yoe / 4 - yoe / 100);
    var mp := (5 * doy + 2) / 153;
    var day := doy - (153 * mp + 2) / 5 + 1;
    var month := if mp < 10 then mp + 3 else mp - 9;
    var year := yoe + era * 400 + (if month <= 2 then 1 else 0);
    Date(year, month, day)
  }

  // --- Inside one 400-year era, counted in years that start in March ---

  /** The first day of year `yoe` of an era. */
  function YearStart(yoe: int): int { 365 * yoe + yoe / 4 - yoe / 100 }

  /** Length of year `yoe` of an era: it ends with the February of civil year `yoe + 1`. */
  function YearLength(yoe: int): int { if IsLeapYear(yoe + 1) then 366 else 365 }

  /** The first day of month `mp` (March = 0) in such a year. */
  function MonthStart(mp: int): int { (153 * mp + 2) / 5 }

  function YearOfEra(doe: int): int {
    (doe - doe / 1460 + doe / 36_524 - doe / 146_096) / 365
  }

  /** A year of an era as century, four-year group and year within it. */
  lemma {:induction false} YearParts(yoe: int) returns (c: int, q: int, s: int)
    requires 0 <= yoe < 400
    ensures yoe == 100 * c + 4 * q + s && 0 <= c < 4 && 0 <= q < 25 && 0 <= s < 4
    ensures YearStart(yoe) == 36_524 * c + 1461 * q + 365 * s
    ensures YearLength(yoe) == 366 <==> s == 3 && (q < 24 || c == 3)
  {
    c, q, s := yoe / 100, yoe % 100 / 4, yoe % 4;
    assert yoe / 4 == 25 * c + q;
  }

  lemma {:induction false} CenturyOf(c: int, rest: int)
    requires 0 <= c < 4 && 0 <= rest <= 36_524 && (rest == 36_524 ==> c == 3)
    ensures (36_524 * c + rest) / 36_524 - (36_524 * c + rest) / 146_096 == c
  {
  }

  /** The correction terms cancel: what is left is the year's own 365-day block. */
  lemma {:induction false} YearOfEraInverts(yoe: int, doy: int)
    requires 0 <= yoe < 400 && 0 <= doy < YearLength(yoe)
    ensures 0 <= YearStart(yoe) + doy < 146_097
    ensures YearOfEra(YearStart(yoe) + doy) == yoe
  {
    var c, q, s := YearParts(yoe);
    var doe := YearStart(yoe) + doy;
    var spill := (24 * c + q + 365 * s + doy) / 1460;
    assert doe == 1460 * (25 * c + q) + (24 * c + q + 365 * s + doy);
    assert doe / 1460 == 25 * c + q + spill;
    CenturyOf(c, 1461 * q + 365 * s + doy);
    assert 0 <= doy - spill <= 364;
    assert doe - doe / 1460 + c == 365 * yoe + (doy - spill);
  }

  /** Every day of an era lies in exactly one of its years. */
  lemma {:induction false} YearOfEraCovers(doe: int)
    requires 0 <= doe < 146_097
    ensures 0 <= YearOfEra(doe) < 400
    ensures YearStart(YearOfEra(doe)) <= doe < YearStart(YearOfEra(doe)) + YearLength(YearOfEra(doe))
  {
    var yoe := FindYear(doe, 399);
    YearOfEraInverts(yoe, doe - YearStart(yoe));
  }

  /** The year of an era holding day `doe`, by counting down from `top`. */
  lemma {:induction false} FindYear(doe: int, top: int) returns (yoe: int)
    requires 0 <= top < 400 && 0 <= doe < YearStart(top) + YearLength(top)
    ensures 0 <= yoe <= top && YearStart(yoe) <= doe < YearStart(yoe) + YearLength(yoe)
  {
    if YearStart(top) <= doe {
      yoe := top;
    } else {
      YearFollows(top - 1);
      yoe := FindYear(doe, top - 1);
    }
  }

  lemma {:induction false} YearFollows(yoe: int)
    requires 0 <= yoe < 399
    ensures YearStart(yoe + 1) == YearStart(yoe) + YearLength(yoe)
  {
    var y := yoe + 1;
    assert y / 4 == yoe / 4 + if y % 4 == 0 then 1 else 0;
    assert y / 100 == yoe / 100 + if y % 100 == 0 then 1 else 0;
    assert y % 100 == 0 ==> y % 4 == 0;
  }

  /** Month `mp` of a March-based year and its day, as a day of that year, and back. */
  lemma {:induction false} MonthInverts(mp: int, day: int)
    requires 0 <= mp < 12 && 1 <= day <= MonthStart(mp + 1) - MonthStart(mp)
    ensures (5 * (MonthStart(mp) + day - 1) + 2) / 153 == mp
  {
  }

  lemma {:induction false} MonthCovers(doy: int)
    requires 0 <= doy <= 366
    ensures var mp := (5 * doy + 2) / 153; 0 <= mp < 12 && MonthStart(mp) <= doy < MonthStart(mp + 1)
  {
  }

  // --- Civil dates ---

  /** The leap pattern repeats every era. */
  lemma {:induction false} LeapRepeats(year: int, era: int)
    ensures IsLeapYear(year + 400 * era) == IsLeapYear(year)
  {
    RemainderBy4(year, 100 * era);
    RemainderBy100(year, 4 * era);
    RemainderBy400(year, era);
  }

  lemma {:induction false} RemainderBy4(x: int, k: int)
    ensures (x + 4 * k) % 4 == x % 4
  {
  }

  lemma {:induction false} RemainderBy100(x: int, k: int)
    ensures (x + 100 * k) % 100 == x % 100
  {
  }

  lemma {:induction false} RemainderBy400(x: int, k: int)
    ensures (x + 400 * k) % 400 == x % 400
  {
  }

  /** Month lengths are the gaps between month starts; February ends the March-based year. */
  lemma {:induction false} MonthLengths(era: int, yoe: int, month: int)
    requires 1 <= month <= 12
    ensures var year := yoe + era * 400 + (if month <= 2 then 1 else 0);
            var mp := (month + 9) % 12;
            DaysInMonth(year, month) ==
            if month == 2 then YearLength(yoe) - 337 else MonthStart(mp + 1) - MonthStart(mp)
  {
    hide IsLeapYear;
    LeapRepeats(yoe + 1, era);
  }

  // Both conversions pass through a `Place`: era, year of era, March-based month and day of year.
  datatype Place = Place(era: int, yoe: int, mp: int, doy: int)

  predicate InPlace(p: Place) {
    && 0 <= p.yoe < 400 && 0 <= p.mp < 12
    && MonthStart(p.mp) <= p.doy < MonthStart(p.mp + 1)
    && p.doy < YearLength(p.yoe)
  }

  function PlaceOf(d: Date): Place {
    var y := if d.month <= 2 then d.year - 1 else d.year;
    var mp := (d.month + 9) % 12;
    Place(y / 400, y - y / 400 * 400, mp, MonthStart(mp) + d.day - 1)
  }

  function DateAt(p: Place): Date {
    var month := if p.mp < 10 then p.mp + 3 else p.mp - 9;
    Date(p.yoe + p.era * 400 + (if month <= 2 then 1 else 0), month, p.doy - MonthStart(p.mp) + 1)
  }

  function PlaceDays(p: Place): int {
    p.era * 146_097 + YearStart(p.yoe) + p.doy - 719_468
  }

  function PlaceAt(days: int): Place {
    var z := days + 719_468;
    var doe := z - z / 146_097 * 146_097;
    var doy := doe - YearStart(YearOfEra(doe));
    Place(z / 146_097, YearOfEra(doe), (5 * doy + 2) / 153, doy)
  }

  lemma {:induction false} DaysUsePlaces(d: Date)
    ensures Days(d) == PlaceDays(PlaceOf(d))
  {
  }

  lemma {:induction false} CivilUsesPlaces(days: int)
    ensures CivilFromDays(days) == DateAt(PlaceAt(days))
  {
  }

  lemma {:induction false} PlaceOfDate(d: Date)
    requires IsDate(d)
    ensures InPlace(PlaceOf(d)) && DateAt(PlaceOf(d)) == d
  {
    hide IsLeapYear, YearLength;
    var p := PlaceOf(d);
    MonthLengths(p.era, p.yoe, d.month);
    assert p.mp < 11 ==> MonthStart(p.mp + 1) <= 337;
    assert 365 <= YearLength(p.yoe) by { YearIsLongEnough(p.yoe); }
  }

  lemma {:induction false} YearIsLongEnough(yoe: int)
    ensures 365 <= YearLength(yoe) <= 366
  {
  }

  lemma {:induction false} DateAtPlace(p: Place)
    requires InPlace(p)
    ensures IsDate(DateAt(p)) && PlaceOf(DateAt(p)) == p
  {
    hide IsLeapYear, YearLength;
    MonthLengths(p.era, p.yoe, DateAt(p).month);
    EraParts(p.yoe, p.era);
  }

  lemma {:induction false} EraParts(yoe: int, era: int)
    requires 0 <= yoe < 400
    ensures (yoe + era * 400) / 400 == era && yoe + era * 400 - era * 400 == yoe
  {
  }

  lemma {:induction false} PlaceAtDays(days: int)
    ensures InPlace(PlaceAt(days)) && PlaceDays(PlaceAt(days)) == days
  {
    hide YearOfEra, YearStart, YearLength;
    var z := days + 719_468;
    var doe := z - z / 146_097 * 146_097;
    YearOfEraCovers(doe);
    YearIsLongEnough(YearOfEra(doe));
    MonthCovers(doe - YearStart(YearOfEra(doe)));
  }

  lemma {:induction false} DaysAtPlace(p: Place)
    requires InPlace(p)
    ensures PlaceAt(PlaceDays(p)) == p
  {
    hide YearOfEra, YearStart, YearLength;
    YearOfEraInverts(p.yoe, p.doy);
    var doe := YearStart(p.yoe) + p.doy;
    var z := p.era * 146_097 + doe;
    assert z / 146_097 == p.era && z - z / 146_097 * 146_097 == doe;
    MonthInverts(p.mp, p.doy - MonthStart(p.mp) + 1);
  }

  /** A date survives the trip through its day count. */
  lemma {:induction false} CivilRoundTrip(d: Date)
    requires IsDate(d)
    ensures CivilFromDays(Days(d)) == d
  {
    hide *;
    DaysUsePlaces(d);
    CivilUsesPlaces(Days(d));
    PlaceOfDate(d);
    DaysAtPlace(PlaceOf(d));
  }

  /** Every day count is the count of the date it converts to, and that date exists. */
  lemma {:induction false} DaysRoundTrip(days: int)
    ensures IsDate(CivilFromDays(days))
    ensures Days(CivilFromDays(days)) == days
  {
    hide *;
    CivilUsesPlaces(days);
    DaysUsePlaces(CivilFromDays(days));
    PlaceAtDays(days);
    DateAtPlace(PlaceAt(days));
  }

  // --- The count against the calendar ---

  /** The first of March of `year`. */
  function MarchFirst(year: int): int { Days(Date(year, 3, 1)) }

  lemma {:induction false} MarchFirstIs(year: int)
    ensures MarchFirst(year) == year / 400 * 146_097 + YearStart(year % 400) - 719_468
  {
  }

  /** One March-based year after another: 366 days when it ends in a leap February. */
  lemma {:induction false} MarchYears(year: int)
    ensures MarchFirst(year + 1) == MarchFirst(year) + (if IsLeapYear(year + 1) then 366 else 365)
  {
    hide Days, MarchFirst, IsLeapYear, YearStart;
    var era, yoe := year / 400, year % 400;
    assert (yoe + 1) + 400 * era == year + 1;
    LeapRepeats(yoe + 1, era);
    MarchFirstIs(year);
    MarchFirstIs(year + 1);
    if yoe < 399 {
      assert (year + 1) / 400 == era && (year + 1) % 400 == yoe + 1;
      YearFollows(yoe);
    } else {
      assert (year + 1) / 400 == era + 1 && (year + 1) % 400 == 0;
      EraEnds();
    }
  }

  lemma {:induction false} EraEnds()
    ensures YearStart(0) == 0 && YearStart(399) == 145_731 && IsLeapYear(400)
  {
  }

  /** Every month counts from the first of March before it. */
  lemma {:induction false} DaysFromMarch(d: Date)
    requires 1 <= d.month <= 12
    ensures Days(d) ==
            MarchFirst(if d.month <= 2 then d.year - 1 else d.year) + MonthStart((d.month + 9) % 12) + d.day - 1
  {
    hide MarchFirst, YearStart;
    var y := if d.month <= 2 then d.year - 1 else d.year;
    DaysUsePlaces(d);
    MarchFirstIs(y);
    assert y % 400 == y - y / 400 * 400;
  }

  /** The day count rises by exactly one from each date to the next. */
  lemma {:induction false} NextDayCountsOne(d: Date)
    requires IsDate(d)
    ensures Days(NextDay(d)) == Days(d) + 1
  {
    hide Days, MarchFirst, IsLeapYear, MonthStart;
    DaysFromMarch(d);
    DaysFromMarch(NextDay(d));
    if d.day == DaysInMonth(d.year, d.month) {
      if d.month == 2 {
        MarchYears(d.year - 1);
        MarchStarts();
      } else {
        MonthEnds(d.year, d.month);
      }
    }
  }

  lemma {:induction false} MarchStarts()
    ensures MonthStart(0) == 0 && MonthStart(11) == 337
  {
  }

  lemma {:induction false} MonthEnds(year: int, month: int)
    requires 1 <= month <= 12 && month != 2
    ensures MonthStart((month + 9) % 12) + DaysInMonth(year, month) == MonthStart((month + 9) % 12 + 1)
    ensures (month + 9) % 12 + 1 == (month % 12 + 1 + 9) % 12
  {
  }

  /** So the closed form walks the calendar: one more day is the next date. */
  lemma {:induction false} CivilFromDaysSteps(days: int)
    ensures IsDate(CivilFromDays(days))
    ensures CivilFromDays(days + 1) == NextDay(CivilFromDays(days))
  {
    hide *;
    DaysRoundTrip(days);
    var d := CivilFromDays(days);
    NextDayCountsOne(d);
    CivilRoundTrip(NextDay(d));
  }

  /** `d` moved on by `n` days of the calendar. */
  function Later(d: Date, n: nat): (r: Date)
    requires IsDate(d)
    ensures IsDate(r)
  {
    if n == 0 then d else NextDay(Later(d, n - 1))
  }

  /** The epoch is day 0, and `n` days after any date count `n` more: the count is a calendar. */
  lemma {:induction false} DaysCountTheCalendar(d: Date, n: nat)
    requires IsDate(d)
    ensures Days(Date(1970, 1, 1)) == 0
    ensures Days(Later(d, n)) == Days(d) + n
  {
    hide DaysFromCivil, DaysInMonth;
    if n > 0 {
      DaysCountTheCalendar(d, n - 1);
      NextDayCountsOne(Later(d, n - 1));
    } else {
      EpochIsZero();
    }
  }

  lemma {:induction false} EpochIsZero()
    ensures Days(Date(1970, 1, 1)) == 0
  {
  }

  // --- Years and day counts ---

  lemma {:induction false} WithinYear(d: Date)
    requires IsDate(d)
    ensures Days(Date(d.year, 1, 1)) <= Days(d) < Days(Date(d.year + 1, 1, 1))
  {
    hide Days, MarchFirst, IsLeapYear;
    DaysFromMarch(d);
    DaysFromMarch(Date(d.year, 1, 1));
    DaysFromMarch(Date(d.year + 1, 1, 1));
    MarchYears(d.year - 1);
  }

  lemma {:induction false} YearStartsRise(a: int, b: int)
    requires a <= b
    ensures Days(Date(a, 1, 1)) <= Days(Date(b, 1, 1))
    decreases b - a
  {
  }

  /** A date's year is at least `a` exactly when its count reaches the first day of year `a`. */
  lemma {:induction false} YearAtLeast(d: Date, a: int)
    requires IsDate(d)
    ensures a <= d.year <==> Days(Date(a, 1, 1)) <= Days(d)
  {
    hide *;
    WithinYear(d);
    if a <= d.year {
      YearStartsRise(a, d.year);
    } else {
      YearStartsRise(d.year + 1, a);
    }
  }

  /** A day count lies in the years 0 to 9999 exactly when it lies between their first and last days. */
  lemma {:induction false} YearBounds(days: int)
    ensures 0 <= CivilFromDays(days).year <= 9999
      <==> Days(Date(0, 1, 1)) <= days < Days(Date(10_000, 1, 1))
  {
    hide *;
    DaysRoundTrip(days);
    YearAtLeast(CivilFromDays(days), 0);
    YearAtLeast(CivilFromDays(days), 10_000);
  }
}
